/** An already parsed XML document, as ElementTree presents it: every element has a
    tag, an attribute map, the text before its first child and its children in
    document order. */
module Xml {

  datatype Element = Element(tag: string, attrib: map<string, string>, text: string, children: seq<Element>)

  /** `e.iter()`: `e` itself and then every element below it, in pre-order. */
  function Iter(e: Element): (r: seq<Element>)
    ensures |r| > 0 && r[0] == e
    decreases e, 1
  {
    [e] + IterAll(e.children)
  }

  function IterAll(cs: seq<Element>): seq<Element>
    decreases cs, 0
  {
    if cs == [] then [] else Iter(cs[0]) + IterAll(cs[1..])
  }

  /** The elements of `es` with tag `tag`, in their order in `es`. */
  function WithTag(es: seq<Element>, tag: string): (r: seq<Element>)
    ensures forall x :: x in r ==> x in es && x.tag == tag
    ensures forall x :: x in es && x.tag == tag ==> x in r
    decreases |es|
  {
    if es == [] then []
    else
      var init := es[..|es| - 1];
      var last := es[|es| - 1];
      assert es == init + [last];
      WithTag(init, tag) + (if last.tag == tag then [last] else [])
  }

  /** `e.iter(tag)`: the elements of `e.iter()` with tag `tag`. */
  function IterTag(e: Element, tag: string): seq<Element>
  {
    WithTag(Iter(e), tag)
  }
}

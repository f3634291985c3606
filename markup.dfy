/**
 * The element tree handed to the himalaya serialiser: elements with an
 * ordered attribute list and children, and text nodes.
 */
module Markup {
  datatype Attribute = Attribute(key: string, value: string)

  /** `{type: 'element', tagName, attributes, children}` or `{type: 'text', content}`. */
  datatype Html =
    | Element(tagName: string, attributes: seq<Attribute>, children: seq<Html>)
    | Text(content: string)

  /** No text node anywhere in this forest. */
  predicate NoText(hs: seq<Html>)
  {
    hs == [] || (NoTextIn(hs[0]) && NoText(hs[1..]))
  }

  predicate NoTextIn(h: Html)
  {
    match h
    case Text(_) => false
    case Element(_, _, kids) => NoText(kids)
  }

  lemma {:induction false} NoTextAppend(a: seq<Html>, b: seq<Html>)
    ensures NoText(a + b) <==> NoText(a) && NoText(b)
  {
    if a == [] {
      assert a + b == b;
    } else {
      assert (a + b)[0] == a[0];
      assert (a + b)[1..] == a[1..] + b;
      NoTextAppend(a[1..], b);
    }
  }

  lemma {:induction false} NoTextAt(hs: seq<Html>, j: int)
    requires NoText(hs) && 0 <= j < |hs|
    ensures NoTextIn(hs[j])
  {
    if j > 0 {
      NoTextAt(hs[1..], j - 1);
    }
  }
}

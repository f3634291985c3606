/**
 * The parsed stylesheet as the core sees it: the postcss node tree. The
 * parser, its iteration helpers and its serialiser are outside the model;
 * a parsed stylesheet (the postcss `Root`) is the sequence of its top-level
 * nodes.
 */
module Css {
  /**
   * One postcss node. A rule has a selector and child nodes; an at-rule
   * (`@media ...`) has child nodes and no selector (a body-less at-rule such
   * as `@import` has none); declarations and comments are leaves.
   */
  datatype Node =
    | Rule(selector: string, nodes: seq<Node>)
    | AtRule(name: string, params: string, nodes: seq<Node>)
    | Decl(prop: string, value: string)
    | Comment(text: string)
  {
    predicate IsContainer()
    {
      Rule? || AtRule?
    }
  }

  /** The number of nodes in a forest; a termination measure. */
  function SizeOf(ns: seq<Node>): nat
  {
    if ns == [] then 0
    else
      1 + (if ns[0].IsContainer() then SizeOf(ns[0].nodes) else 0) + SizeOf(ns[1..])
  }

  lemma {:induction false} SizeOfAppend(a: seq<Node>, b: seq<Node>)
    ensures SizeOf(a + b) == SizeOf(a) + SizeOf(b)
  {
    if a != [] {
      assert (a + b)[0] == a[0];
      assert (a + b)[1..] == a[1..] + b;
      SizeOfAppend(a[1..], b);
    } else {
      assert a + b == b;
    }
  }

  /** A single node of a forest weighs no more than the forest. */
  lemma ChildSize(ns: seq<Node>, i: nat)
    requires i < |ns|
    ensures SizeOf([ns[i]]) <= SizeOf(ns)
  {
    SizeOfAppend(ns[..i], ns[i..]);
    assert ns[..i] + ns[i..] == ns;
    SizeOfAppend([ns[i]], ns[i + 1..]);
    assert [ns[i]] + ns[i + 1..] == ns[i..];
  }

  /** A container's children weigh strictly less than any forest holding it. */
  lemma {:induction false} ChildrenSmaller(ns: seq<Node>, i: int)
    requires 0 <= i < |ns| && ns[i].IsContainer()
    ensures SizeOf(ns[i].nodes) < SizeOf(ns)
  {
    if i > 0 {
      ChildrenSmaller(ns[1..], i - 1);
    }
  }

  /** The selectors of all rules at every depth, in document (pre-)order. */
  function Selectors(ns: seq<Node>): seq<string>
  {
    if ns == [] then []
    else
      match ns[0]
      case Rule(s, kids) => [s] + Selectors(kids) + Selectors(ns[1..])
      case AtRule(_, _, kids) => Selectors(kids) + Selectors(ns[1..])
      case _ => Selectors(ns[1..])
  }

  /** The declarations and comments at every depth, in document order. */
  function Leaves(ns: seq<Node>): seq<Node>
  {
    if ns == [] then []
    else
      match ns[0]
      case Rule(_, kids) => Leaves(kids) + Leaves(ns[1..])
      case AtRule(_, _, kids) => Leaves(kids) + Leaves(ns[1..])
      case _ => [ns[0]] + Leaves(ns[1..])
  }
}

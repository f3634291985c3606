/**
 * `walk` from src/index.js: the depth-first walk that builds the element
 * tree from the rule tree. Each rule yields as many element copies as its
 * multiplier asks for, each copy walking the rule's children; `content`
 * declarations outside `:before`/`:after` rules become text nodes and are
 * removed from the tree as they are read, so the walk returns both the
 * elements it built and the tree it left behind.
 */
module Walker {
  import opened Wrappers
  import opened Css
  import opened Markup
  import opened Transformer
  import opened SelectorText

  /** What a walk emits, and the rule tree as the walk leaves it. */
  datatype Walked = Walked(results: seq<Html>, rest: seq<Node>)

  /** A declaration the walker turns into text: `content`, under a parent that is not `:before`/`:after`. */
  predicate Lifts(prop: string, parent: Option<string>)
  {
    prop == "content" && !IsPseudoParent(parent)
  }

  lemma SizeOfCons(x: Node, t: seq<Node>)
    ensures SizeOf([x] + t) == SizeOf([x]) + SizeOf(t)
  {
    SizeOfAppend([x], t);
  }

  /** Two walks one after the other: their results and their remaining trees side by side. */
  function Join(a: Walked, b: Walked): Walked
  {
    Walked(a.results + b.results, a.rest + b.rest)
  }

  /**
   * `walk(node, results)` over the children `ns` of a node whose selector
   * is `parent` (None for the stylesheet root, whose selector is undefined).
   */
  function WalkNodes(ns: seq<Node>, parent: Option<string>, parse: SelectorParser): (w: Walked)
    ensures SizeOf(w.rest) <= SizeOf(ns)
    decreases SizeOf(ns), 1, 0
  {
    if ns == [] then Walked([], [])
    else
      SizeOfCons(ns[0], ns[1..]);
      var head := Visit(ns[0], parent, parse);
      var tail := WalkNodes(ns[1..], parent, parse);
      SizeOfAppend(head.rest, tail.rest);
      Join(head, tail)
  }

  /** One child of the walked node: what it emits and what is left of it (nothing, for a lifted declaration). */
  function Visit(child: Node, parent: Option<string>, parse: SelectorParser): (w: Walked)
    ensures SizeOf(w.rest) <= SizeOf([child])
    decreases SizeOf([child]), 0, 0
  {
    match child
    case Decl(prop, value) =>
      if Lifts(prop, parent) then Walked([Text(value)], []) else Walked([], [child])
    case Rule(sel, kids) =>
      if sel == "" then Walked([], [child])
      else
        var c := Copies(sel, kids, ParseMultiplier(sel), parse);
        Walked(c.results, [Rule(sel, c.rest)])
    case _ => Walked([], [child])
  }

  /**
   * The `Array.from({length: n}, ...)` loop for a rule with selector `sel`:
   * each copy is a fresh element that walks the rule's children as the
   * previous copies left them.
   */
  function Copies(sel: string, kids: seq<Node>, n: nat, parse: SelectorParser): (w: Walked)
    ensures SizeOf(w.rest) <= SizeOf(kids)
    decreases SizeOf(kids), 2, n
  {
    if n == 0 then Walked([], kids)
    else
      var entry := Transform(sel, parse);
      var inner := if |kids| > 0 then WalkNodes(kids, Some(sel), parse) else Walked([], kids);
      var more := Copies(sel, inner.rest, n - 1, parse);
      Walked([Element(entry.tagName, entry.attributes, inner.results)] + more.results, more.rest)
  }

  // ---------------------------------------------------------------------
  // The imperative walk
  // ---------------------------------------------------------------------

  lemma JoinAssoc(a: Walked, b: Walked, c: Walked)
    ensures Join(Join(a, b), c) == Join(a, Join(b, c))
  {
    assert a.results + b.results + c.results == a.results + (b.results + c.results);
    assert a.rest + b.rest + c.rest == a.rest + (b.rest + c.rest);
  }

  /**
   * `walk` as the source runs it: a loop over the children that pushes what
   * each child yields onto the results and keeps what is left of it.
   */
  method Walk(ns: seq<Node>, parent: Option<string>, parse: SelectorParser) returns (results: seq<Html>, rest: seq<Node>)
    ensures Walked(results, rest) == WalkNodes(ns, parent, parse)
    decreases SizeOf(ns), 1
  {
    results, rest := [], [];
    var i := 0;
    while i < |ns|
      invariant 0 <= i <= |ns|
      invariant WalkNodes(ns, parent, parse) == Join(Walked(results, rest), WalkNodes(ns[i..], parent, parse))
    {
      ChildSize(ns, i);
      var step := VisitChild(ns[i], parent, parse);
      WalkStep(ns, i, parent, parse, Walked(results, rest), step);
      results, rest := results + step.results, rest + step.rest;
      i := i + 1;
    }
    assert ns[|ns|..] == [];
  }

  /** One turn of the walk's loop: what the visited child yields joins what the walk has so far. */
  lemma WalkStep(ns: seq<Node>, i: nat, parent: Option<string>, parse: SelectorParser, sofar: Walked, step: Walked)
    requires i < |ns| && step == Visit(ns[i], parent, parse)
    ensures Join(sofar, WalkNodes(ns[i..], parent, parse))
      == Join(Walked(sofar.results + step.results, sofar.rest + step.rest), WalkNodes(ns[i + 1..], parent, parse))
  {
    assert ns[i..][0] == ns[i] && ns[i..][1..] == ns[i + 1..];
    JoinAssoc(sofar, step, WalkNodes(ns[i + 1..], parent, parse));
  }

  /**
   * One child inside the loop of `walk`: a lifted `content` declaration is
   * pushed as text and dropped, a rule with a selector goes to the
   * repetition loop, anything else is left alone.
   */
  method VisitChild(child: Node, parent: Option<string>, parse: SelectorParser) returns (w: Walked)
    ensures w == Visit(child, parent, parse)
    decreases SizeOf([child]), 0
  {
    if child.Decl? && Lifts(child.prop, parent) {
      w := Walked([Text(child.value)], []);
    } else if child.Rule? && child.selector != "" {
      ChildrenSmaller([child], 0);
      var entries, kids := Repeat(child.selector, child.nodes, ParseMultiplier(child.selector), parse);
      w := Walked(entries, [Rule(child.selector, kids)]);
    } else {
      w := Walked([], [child]);
    }
  }

  /** Copies(sel, kids, m) for m > 0, one copy peeled off the front. */
  lemma CopiesStep(sel: string, kids: seq<Node>, m: nat, parse: SelectorParser, children: seq<Html>, left: seq<Node>)
    requires m > 0
    requires Walked(children, left) == (if |kids| > 0 then WalkNodes(kids, Some(sel), parse) else Walked([], kids))
    ensures Copies(sel, kids, m, parse)
      == Join(Walked([Element(Transform(sel, parse).tagName, Transform(sel, parse).attributes, children)], []),
              Copies(sel, left, m - 1, parse))
  {
    var e := Transform(sel, parse);
    var more := Copies(sel, left, m - 1, parse);
    assert [] + more.rest == more.rest;
    assert Copies(sel, kids, m, parse) == Walked([Element(e.tagName, e.attributes, children)] + more.results, more.rest);
  }

  /** One turn of the repetition loop moves one copy from what is still to come onto the entries. */
  lemma RepeatStep(sel: string, left: seq<Node>, m: nat, parse: SelectorParser,
                   entries: seq<Html>, children: seq<Html>, after: seq<Node>)
    requires m > 0
    requires Walked(children, after) == (if |left| > 0 then WalkNodes(left, Some(sel), parse) else Walked([], left))
    ensures Join(Walked(entries, []), Copies(sel, left, m, parse))
      == Join(Walked(entries + [Element(Transform(sel, parse).tagName, Transform(sel, parse).attributes, children)], []),
              Copies(sel, after, m - 1, parse))
  {
    var element := Element(Transform(sel, parse).tagName, Transform(sel, parse).attributes, children);
    CopiesStep(sel, left, m, parse, children, after);
    JoinAssoc(Walked(entries, []), Walked([element], []), Copies(sel, after, m - 1, parse));
  }

  /**
   * The `Array.from({length: n}, ...)` loop: push a fresh entry, and when the
   * rule still has child nodes walk them into that entry's children.
   */
  method Repeat(sel: string, kids: seq<Node>, n: nat, parse: SelectorParser) returns (entries: seq<Html>, left: seq<Node>)
    ensures Walked(entries, left) == Copies(sel, kids, n, parse)
    decreases SizeOf(kids), 2
  {
    entries, left := [], kids;
    var k := 0;
    while k < n
      invariant 0 <= k <= n
      invariant SizeOf(left) <= SizeOf(kids)
      invariant Copies(sel, kids, n, parse) == Join(Walked(entries, []), Copies(sel, left, n - k, parse))
    {
      var entry := Transform(sel, parse);
      var children: seq<Html> := [];
      var after := left;
      if |left| > 0 {
        children, after := Walk(left, Some(sel), parse);
      }
      var element := Element(entry.tagName, entry.attributes, children);
      RepeatStep(sel, left, n - k, parse, entries, children, after);
      entries, left := entries + [element], after;
      k := k + 1;
    }
  }

  // ---------------------------------------------------------------------
  // What the walk does to the tree, and what it emits
  // ---------------------------------------------------------------------

  /** A rule the walk descends into: a non-empty selector whose multiplier asks for at least one copy. */
  predicate Descends(sel: string)
  {
    sel != "" && ParseMultiplier(sel) > 0
  }

  /**
   * Reference definition of the tree the walk leaves behind: every `content`
   * declaration the walk reaches outside `:before`/`:after` rules removed,
   * and nothing else touched. The walk reaches rules it repeats at least
   * once, and never looks inside at-rules or comments.
   */
  function Unlift(ns: seq<Node>, parent: Option<string>): (r: seq<Node>)
    ensures SizeOf(r) <= SizeOf(ns)
    decreases SizeOf(ns)
  {
    if ns == [] then []
    else
      SizeOfCons(ns[0], ns[1..]);
      var t := Unlift(ns[1..], parent);
      match ns[0]
      case Decl(prop, _) => if Lifts(prop, parent) then t else [ns[0]] + t
      case Rule(sel, kids) =>
        if Descends(sel) then
          ChildrenSmaller(ns, 0);
          var k := Unlift(kids, Some(sel));
          SizeOfCons(Rule(sel, k), t);
          [Rule(sel, k)] + t
        else [ns[0]] + t
      case _ => [ns[0]] + t
  }

  /** Removing the lifted declarations twice removes nothing more. */
  lemma {:induction false} UnliftIdempotent(ns: seq<Node>, parent: Option<string>)
    ensures Unlift(Unlift(ns, parent), parent) == Unlift(ns, parent)
    decreases SizeOf(ns)
  {
    if ns != [] {
      SizeOfCons(ns[0], ns[1..]);
      var t := Unlift(ns[1..], parent);
      UnliftIdempotent(ns[1..], parent);
      match ns[0]
      case Decl(prop, _) =>
        if !Lifts(prop, parent) {
          assert ([ns[0]] + t)[1..] == t;
        }
      case Rule(sel, kids) =>
        if Descends(sel) {
          ChildrenSmaller(ns, 0);
          UnliftIdempotent(kids, Some(sel));
          var r := Rule(sel, Unlift(kids, Some(sel)));
          assert ([r] + t)[0] == r && ([r] + t)[1..] == t;
        } else {
          assert ([ns[0]] + t)[1..] == t;
        }
      case _ =>
        assert ([ns[0]] + t)[1..] == t;
    }
  }

  /**
   * The walk leaves exactly Unlift's tree behind, and walking a tree that
   * has nothing left to lift emits no text at any depth.
   */
  lemma {:induction false} WalkRestIsUnlift(ns: seq<Node>, parent: Option<string>, parse: SelectorParser)
    ensures WalkNodes(ns, parent, parse).rest == Unlift(ns, parent)
    ensures Unlift(ns, parent) == ns ==> NoText(WalkNodes(ns, parent, parse).results)
    decreases SizeOf(ns), 1
  {
    if ns != [] {
      SizeOfCons(ns[0], ns[1..]);
      var head := Visit(ns[0], parent, parse);
      var tail := WalkNodes(ns[1..], parent, parse);
      var t := Unlift(ns[1..], parent);
      WalkRestIsUnlift(ns[1..], parent, parse);
      NoTextAppend(head.results, tail.results);
      VisitRestIsUnlift(ns[0], parent, parse);
      assert [ns[0]] + ns[1..] == ns;
      assert Unlift(ns, parent) == Unlift([ns[0]], parent) + t by {
        assert [ns[0]][1..] == [];
      }
      if Unlift(ns, parent) == ns {
        UnliftSplit(ns[0], ns[1..], parent);
      }
    }
  }

  /** Unlift of a forest is Unlift of its head followed by Unlift of its tail; equal to the forest only when both parts are. */
  lemma UnliftSplit(x: Node, t: seq<Node>, parent: Option<string>)
    requires Unlift([x] + t, parent) == [x] + t
    ensures Unlift([x], parent) == [x] && Unlift(t, parent) == t
  {
    assert ([x] + t)[0] == x && ([x] + t)[1..] == t;
    assert [x][1..] == [];
    var u := Unlift(t, parent);
    SizeOfCons(x, t);
    match x
    case Decl(prop, _) =>
    case Rule(sel, kids) =>
      if Descends(sel) {
        assert ([Rule(sel, Unlift(kids, Some(sel)))] + u)[1..] == u;
      } else {
        assert ([x] + u)[1..] == u;
      }
    case _ =>
      assert ([x] + u)[1..] == u;
  }

  lemma {:induction false} VisitRestIsUnlift(x: Node, parent: Option<string>, parse: SelectorParser)
    ensures Visit(x, parent, parse).rest == Unlift([x], parent)
    ensures Unlift([x], parent) == [x] ==> NoText(Visit(x, parent, parse).results)
    decreases SizeOf([x]), 0
  {
    assert [x][0] == x && [x][1..] == [];
    match x
    case Decl(prop, value) =>
    case Rule(sel, kids) =>
      if sel != "" {
        ChildrenSmaller([x], 0);
        CopiesRestIsUnlift(sel, kids, ParseMultiplier(sel), parse);
        if !Descends(sel) {
          assert Copies(sel, kids, 0, parse).results == [];
        }
      }
    case _ =>
  }

  /**
   * The first copy removes the lifted declarations; every later copy walks
   * the already-cleaned children, so it leaves them as they are and emits
   * no text.
   */
  lemma {:induction false} CopiesRestIsUnlift(sel: string, kids: seq<Node>, n: nat, parse: SelectorParser)
    ensures Copies(sel, kids, n, parse).rest == (if n == 0 then kids else Unlift(kids, Some(sel)))
    ensures Unlift(kids, Some(sel)) == kids ==> NoText(Copies(sel, kids, n, parse).results)
    ensures n > 0 ==> NoText(Copies(sel, kids, n, parse).results[1..])
    decreases SizeOf(kids), 2, n
  {
    if n > 0 {
      var entry := Transform(sel, parse);
      var inner := if |kids| > 0 then WalkNodes(kids, Some(sel), parse) else Walked([], kids);
      if |kids| > 0 {
        WalkRestIsUnlift(kids, Some(sel), parse);
      }
      assert inner.rest == Unlift(kids, Some(sel));
      UnliftIdempotent(kids, Some(sel));
      CopiesRestIsUnlift(sel, inner.rest, n - 1, parse);
      var more := Copies(sel, inner.rest, n - 1, parse);
      var first := Element(entry.tagName, entry.attributes, inner.results);
      assert Copies(sel, kids, n, parse).results == [first] + more.results;
      assert ([first] + more.results)[1..] == more.results;
      if n > 1 {
        CopiesRestIsUnlift(sel, inner.rest, n - 2, parse);
      }
      NoTextAppend([first], more.results);
      assert [first][0] == first && [first][1..] == [];
    }
  }

  /** Walking what a walk left behind changes nothing more and emits no text. */
  lemma WalkTwice(ns: seq<Node>, parent: Option<string>, parse: SelectorParser)
    ensures var once := WalkNodes(ns, parent, parse);
      var twice := WalkNodes(once.rest, parent, parse);
      twice.rest == once.rest && NoText(twice.results)
  {
    var once := WalkNodes(ns, parent, parse);
    WalkRestIsUnlift(ns, parent, parse);
    UnliftIdempotent(ns, parent);
    WalkRestIsUnlift(once.rest, parent, parse);
  }

  /** `h` is one copy of the rule with selector `sel`: an element with the transformer's tag name and attributes. */
  predicate IsCopyOf(h: Html, sel: string, parse: SelectorParser)
  {
    h.Element? && h.tagName == Transform(sel, parse).tagName && h.attributes == Transform(sel, parse).attributes
  }

  /**
   * A rule with multiplier n yields exactly n elements, each with the tag
   * name and attributes the transformer derives from the selector.
   */
  lemma {:induction false} CopiesShape(sel: string, kids: seq<Node>, n: nat, parse: SelectorParser)
    ensures |Copies(sel, kids, n, parse).results| == n
    ensures forall j :: 0 <= j < n ==> IsCopyOf(Copies(sel, kids, n, parse).results[j], sel, parse)
  {
    CopiesLength(sel, kids, n, parse);
    forall j | 0 <= j < n
      ensures IsCopyOf(Copies(sel, kids, n, parse).results[j], sel, parse)
    {
      CopiesEntry(sel, kids, n, parse, j);
    }
  }

  lemma {:induction false} CopiesLength(sel: string, kids: seq<Node>, n: nat, parse: SelectorParser)
    ensures |Copies(sel, kids, n, parse).results| == n
    decreases n
  {
    if n > 0 {
      var inner := if |kids| > 0 then WalkNodes(kids, Some(sel), parse) else Walked([], kids);
      CopiesStep(sel, kids, n, parse, inner.results, inner.rest);
      CopiesLength(sel, inner.rest, n - 1, parse);
    }
  }

  /** The j-th copy of a rule is an element with the transformer's tag name and attributes. */
  lemma {:induction false} CopiesEntry(sel: string, kids: seq<Node>, n: nat, parse: SelectorParser, j: nat)
    requires j < n
    ensures j < |Copies(sel, kids, n, parse).results|
    ensures IsCopyOf(Copies(sel, kids, n, parse).results[j], sel, parse)
    decreases n
  {
    var inner := if |kids| > 0 then WalkNodes(kids, Some(sel), parse) else Walked([], kids);
    var e := Transform(sel, parse);
    var more := Copies(sel, inner.rest, n - 1, parse);
    var results := Copies(sel, kids, n, parse).results;
    CopiesStep(sel, kids, n, parse, inner.results, inner.rest);
    assert results == [Element(e.tagName, e.attributes, inner.results)] + more.results;
    if j > 0 {
      CopiesEntry(sel, inner.rest, n - 1, parse, j - 1);
      assert results[j] == more.results[j - 1];
    } else {
      assert results[0] == Element(e.tagName, e.attributes, inner.results);
    }
  }

  /** The contents of the text nodes among `hs` (not inside elements), in order. */
  function TopTexts(hs: seq<Html>): seq<string>
  {
    if hs == [] then []
    else (if hs[0].Text? then [hs[0].content] else []) + TopTexts(hs[1..])
  }

  /** How many elements (not text nodes) `hs` holds at its top level. */
  function TopElements(hs: seq<Html>): nat
  {
    if hs == [] then 0
    else (if hs[0].Element? then 1 else 0) + TopElements(hs[1..])
  }

  lemma {:induction false} TopAppend(a: seq<Html>, b: seq<Html>)
    ensures TopTexts(a + b) == TopTexts(a) + TopTexts(b)
    ensures TopElements(a + b) == TopElements(a) + TopElements(b)
  {
    if a == [] {
      assert a + b == b;
    } else {
      assert (a + b)[0] == a[0] && (a + b)[1..] == a[1..] + b;
      TopAppend(a[1..], b);
    }
  }

  lemma {:induction false} AllElements(hs: seq<Html>)
    requires forall j :: 0 <= j < |hs| ==> hs[j].Element?
    ensures TopTexts(hs) == [] && TopElements(hs) == |hs|
  {
    if hs != [] {
      AllElements(hs[1..]);
    }
  }

  /** The values of the `content` declarations directly among `ns` that the walk lifts, in order. */
  function LiftedValues(ns: seq<Node>, parent: Option<string>): seq<string>
  {
    if ns == [] then []
    else (if ns[0].Decl? && Lifts(ns[0].prop, parent) then [ns[0].value] else []) + LiftedValues(ns[1..], parent)
  }

  /** The sum of the multipliers of the rules directly among `ns` that have a selector. */
  function Multiplicity(ns: seq<Node>): nat
  {
    if ns == [] then 0
    else (if ns[0].Rule? && ns[0].selector != "" then ParseMultiplier(ns[0].selector) else 0) + Multiplicity(ns[1..])
  }

  /**
   * At the level of the walked node, the walk emits one text node per lifted
   * `content` declaration, with its value and in document order, and one
   * element per copy of each child rule.
   */
  lemma {:induction false} WalkTopLevel(ns: seq<Node>, parent: Option<string>, parse: SelectorParser)
    ensures TopTexts(WalkNodes(ns, parent, parse).results) == LiftedValues(ns, parent)
    ensures TopElements(WalkNodes(ns, parent, parse).results) == Multiplicity(ns)
    decreases |ns|
  {
    if ns != [] {
      var head := Visit(ns[0], parent, parse);
      var tail := WalkNodes(ns[1..], parent, parse);
      WalkTopLevel(ns[1..], parent, parse);
      TopAppend(head.results, tail.results);
      VisitTopLevel(ns[0], parent, parse);
    }
  }

  /** WalkTopLevel for one child: a lifted declaration gives its text, a rule with a selector its copies. */
  lemma VisitTopLevel(x: Node, parent: Option<string>, parse: SelectorParser)
    ensures TopTexts(Visit(x, parent, parse).results) == (if x.Decl? && Lifts(x.prop, parent) then [x.value] else [])
    ensures TopElements(Visit(x, parent, parse).results) == (if x.Rule? && x.selector != "" then ParseMultiplier(x.selector) else 0)
  {
    var head := Visit(x, parent, parse);
    match x
    case Decl(prop, value) =>
      assert [Text(value)][1..] == [];
    case Rule(sel, kids) =>
      if sel != "" {
        CopiesShape(sel, kids, ParseMultiplier(sel), parse);
        AllElements(head.results);
      }
    case _ =>
  }
}

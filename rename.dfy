/**
 * The `rename` plugin of src/rename.js: `walkRules` visits every rule at
 * every depth (inside other rules and inside at-rules alike) and assigns
 * `rule.selector = replace(rule.selector)`.
 */
module RenamePlugin {
  import opened Css

  /** The default `replace` option: the identity. */
  function Identity(s: string): string
  {
    s
  }

  /** The tree after one pass of the plugin: each rule's selector replaced, nothing else touched. */
  function RenameNodes(ns: seq<Node>, replace: string -> string): (r: seq<Node>)
    decreases SizeOf(ns)
  {
    if ns == [] then []
    else
      var t := RenameNodes(ns[1..], replace);
      match ns[0]
      case Rule(sel, kids) => [Rule(replace(sel), RenameNodes(kids, replace))] + t
      case AtRule(name, params, kids) => [AtRule(name, params, RenameNodes(kids, replace))] + t
      case _ => [ns[0]] + t
  }

  /** The tree with every selector blanked out: what renaming must not change. */
  function Shape(ns: seq<Node>): seq<Node>
  {
    RenameNodes(ns, _ => "")
  }

  /** `replace` applied to each element of `ss`. */
  function MapSelectors(replace: string -> string, ss: seq<string>): (r: seq<string>)
    ensures |r| == |ss|
    ensures forall i :: 0 <= i < |ss| ==> r[i] == replace(ss[i])
  {
    if ss == [] then [] else [replace(ss[0])] + MapSelectors(replace, ss[1..])
  }

  lemma {:induction false} MapSelectorsAppend(replace: string -> string, a: seq<string>, b: seq<string>)
    ensures MapSelectors(replace, a + b) == MapSelectors(replace, a) + MapSelectors(replace, b)
  {
    assert |MapSelectors(replace, a + b)| == |a + b|;
  }

  // ---------------------------------------------------------------------
  // Only selectors change, each into replace(itself)
  // ---------------------------------------------------------------------

  /** The selectors after the pass are the old ones, each replaced, in the same order. */
  lemma {:induction false} RenameSelectors(ns: seq<Node>, replace: string -> string)
    ensures Selectors(RenameNodes(ns, replace)) == MapSelectors(replace, Selectors(ns))
    decreases SizeOf(ns)
  {
    if ns != [] {
      var r := RenameNodes(ns, replace);
      var t := RenameNodes(ns[1..], replace);
      RenameSelectors(ns[1..], replace);
      match ns[0]
      case Rule(sel, kids) =>
        RenameSelectors(kids, replace);
        assert r[0] == Rule(replace(sel), RenameNodes(kids, replace)) && r[1..] == t;
        MapSelectorsAppend(replace, [sel] + Selectors(kids), Selectors(ns[1..]));
        MapSelectorsAppend(replace, [sel], Selectors(kids));
      case AtRule(name, params, kids) =>
        RenameSelectors(kids, replace);
        assert r[0] == AtRule(name, params, RenameNodes(kids, replace)) && r[1..] == t;
        MapSelectorsAppend(replace, Selectors(kids), Selectors(ns[1..]));
      case _ =>
        assert r[0] == ns[0] && r[1..] == t;
    }
  }

  /** Renaming leaves the shape alone: declarations, at-rules, node count and order. */
  lemma RenameKeepsShape(ns: seq<Node>, replace: string -> string)
    ensures Shape(RenameNodes(ns, replace)) == Shape(ns)
  {
    RenameTwice(ns, replace, _ => "");
    RenameCongruent(ns, s => (_ => "")(replace(s)), _ => "");
  }

  /** Two replacements that agree on the selectors present rename the tree identically. */
  lemma {:induction false} RenameCongruent(ns: seq<Node>, f: string -> string, g: string -> string)
    requires forall s :: s in Selectors(ns) ==> f(s) == g(s)
    ensures RenameNodes(ns, f) == RenameNodes(ns, g)
    decreases SizeOf(ns)
  {
    if ns != [] {
      RenameCongruent(ns[1..], f, g);
      match ns[0]
      case Rule(sel, kids) =>
        assert sel in Selectors(ns);
        RenameCongruent(kids, f, g);
      case AtRule(_, _, kids) =>
        RenameCongruent(kids, f, g);
      case _ =>
    }
  }

  /** Two passes are one pass with the composed replacement. */
  lemma {:induction false} RenameTwice(ns: seq<Node>, f: string -> string, g: string -> string)
    ensures RenameNodes(RenameNodes(ns, f), g) == RenameNodes(ns, s => g(f(s)))
    decreases SizeOf(ns)
  {
    if ns != [] {
      var r := RenameNodes(ns, f);
      RenameTwice(ns[1..], f, g);
      match ns[0]
      case Rule(sel, kids) =>
        RenameTwice(kids, f, g);
        assert r[0] == Rule(f(sel), RenameNodes(kids, f)) && r[1..] == RenameNodes(ns[1..], f);
      case AtRule(name, params, kids) =>
        RenameTwice(kids, f, g);
        assert r[0] == AtRule(name, params, RenameNodes(kids, f)) && r[1..] == RenameNodes(ns[1..], f);
      case _ =>
        assert r[0] == ns[0] && r[1..] == RenameNodes(ns[1..], f);
    }
  }

  /** With the default `replace`, or any that fixes every selector present, the tree is unchanged. */
  lemma {:induction false} RenameIdentity(ns: seq<Node>, replace: string -> string)
    requires forall s :: s in Selectors(ns) ==> replace(s) == s
    ensures RenameNodes(ns, replace) == ns
    decreases SizeOf(ns)
  {
    if ns != [] {
      RenameIdentity(ns[1..], replace);
      match ns[0]
      case Rule(sel, kids) =>
        assert sel in Selectors(ns);
        RenameIdentity(kids, replace);
        assert [Rule(sel, kids)] + ns[1..] == ns;
      case AtRule(name, params, kids) =>
        RenameIdentity(kids, replace);
        assert [AtRule(name, params, kids)] + ns[1..] == ns;
      case _ =>
        assert [ns[0]] + ns[1..] == ns;
    }
  }

  /** The shape and the selector sequence together determine a tree. */
  lemma {:induction false} ShapeAndSelectorsDetermine(a: seq<Node>, b: seq<Node>)
    requires Shape(a) == Shape(b) && Selectors(a) == Selectors(b)
    ensures a == b
    decreases SizeOf(a)
  {
    if a == [] {
      assert |Shape(b)| == 0;
      ShapeLength(b);
    } else {
      ShapeLength(a);
      ShapeLength(b);
      var sa, sb := Shape(a), Shape(b);
      assert sa[1..] == Shape(a[1..]) && sb[1..] == Shape(b[1..]) by {
        ShapeTail(a);
        ShapeTail(b);
      }
      ShapeHead(a);
      ShapeHead(b);
      assert a == [a[0]] + a[1..] && b == [b[0]] + b[1..];
      if a[0].Rule? {
        var sel, kids, sel', kids' := a[0].selector, a[0].nodes, b[0].selector, b[0].nodes;
        SameShapeSameCount(kids, kids');
        SelectorsSplit(sel, kids, a[1..]);
        SelectorsSplit(sel', kids', b[1..]);
        ShapeAndSelectorsDetermine(kids, kids');
        ShapeAndSelectorsDetermine(a[1..], b[1..]);
      } else if a[0].AtRule? {
        var kids, kids' := a[0].nodes, b[0].nodes;
        SameShapeSameCount(kids, kids');
        assert Selectors(a) == Selectors(kids) + Selectors(a[1..]);
        assert Selectors(b) == Selectors(kids') + Selectors(b[1..]);
        assert Selectors(kids) == Selectors(a)[..|Selectors(kids)|];
        assert Selectors(kids') == Selectors(b)[..|Selectors(kids')|];
        assert Selectors(a[1..]) == Selectors(a)[|Selectors(kids)|..];
        assert Selectors(b[1..]) == Selectors(b)[|Selectors(kids')|..];
        ShapeAndSelectorsDetermine(kids, kids');
        ShapeAndSelectorsDetermine(a[1..], b[1..]);
      } else {
        ShapeAndSelectorsDetermine(a[1..], b[1..]);
      }
    }
  }

  /** What the shape shows of a forest's first node. */
  lemma ShapeHead(ns: seq<Node>)
    requires ns != []
    ensures ns[0].Rule? <==> Shape(ns)[0].Rule?
    ensures ns[0].AtRule? <==> Shape(ns)[0].AtRule?
    ensures ns[0].IsContainer() ==> Shape(ns)[0].nodes == Shape(ns[0].nodes)
    ensures ns[0].AtRule? ==> Shape(ns)[0] == AtRule(ns[0].name, ns[0].params, Shape(ns[0].nodes))
    ensures !ns[0].IsContainer() ==> Shape(ns)[0] == ns[0]
  {
  }

  lemma SelectorsSplit(sel: string, kids: seq<Node>, t: seq<Node>)
    ensures var s := Selectors([Rule(sel, kids)] + t);
      |s| == 1 + |Selectors(kids)| + |Selectors(t)| &&
      s[0] == sel && s[1..1 + |Selectors(kids)|] == Selectors(kids) &&
      s[1 + |Selectors(kids)|..] == Selectors(t)
  {
    var n := [Rule(sel, kids)] + t;
    assert n[0] == Rule(sel, kids) && n[1..] == t;
  }

  lemma ShapeLength(ns: seq<Node>)
    ensures |Shape(ns)| == |ns|
  {
    RenameLength(ns, _ => "");
  }

  lemma {:induction false} RenameLength(ns: seq<Node>, replace: string -> string)
    ensures |RenameNodes(ns, replace)| == |ns|
  {
    if ns != [] {
      RenameLength(ns[1..], replace);
    }
  }

  lemma ShapeTail(ns: seq<Node>)
    requires ns != []
    ensures Shape(ns)[1..] == Shape(ns[1..])
  {
  }

  /** Trees of the same shape hold the same number of rules. */
  lemma SameShapeSameCount(a: seq<Node>, b: seq<Node>)
    requires Shape(a) == Shape(b)
    ensures |Selectors(a)| == |Selectors(b)|
  {
    RenameSelectors(a, _ => "");
    RenameSelectors(b, _ => "");
  }

  /**
   * Two passes equal one exactly when `replace` is idempotent on every
   * selector present.
   */
  lemma RenameIdempotentIff(ns: seq<Node>, replace: string -> string)
    ensures RenameNodes(RenameNodes(ns, replace), replace) == RenameNodes(ns, replace)
      <==> forall s :: s in Selectors(ns) ==> replace(replace(s)) == replace(s)
  {
    var once := RenameNodes(ns, replace);
    var twice := RenameNodes(once, replace);
    RenameTwice(ns, replace, replace);
    if forall s :: s in Selectors(ns) ==> replace(replace(s)) == replace(s) {
      RenameCongruent(ns, s => replace(replace(s)), replace);
    }
    if twice == once {
      RenameSelectors(ns, replace);
      RenameSelectors(once, replace);
      forall s | s in Selectors(ns)
        ensures replace(replace(s)) == replace(s)
      {
        var i :| 0 <= i < |Selectors(ns)| && Selectors(ns)[i] == s;
        assert Selectors(once)[i] == replace(s);
        assert Selectors(twice)[i] == replace(Selectors(once)[i]);
      }
    }
  }

  // ---------------------------------------------------------------------
  // The pass as the source runs it
  // ---------------------------------------------------------------------

  /** One turn of the rename loop: the renamed node joins the renamed prefix. */
  lemma RenameStep(ns: seq<Node>, i: nat, r: seq<Node>, renamed: Node, replace: string -> string)
    requires i < |ns| && [renamed] == RenameNodes([ns[i]], replace)
    ensures r + RenameNodes(ns[i..], replace) == (r + [renamed]) + RenameNodes(ns[i + 1..], replace)
  {
    assert ns[i..][0] == ns[i] && ns[i..][1..] == ns[i + 1..];
    assert [ns[i]][1..] == [];
  }

  /**
   * `tree.walkRules((rule) => { rule.selector = replace(rule.selector) })`
   * over the forest `ns`: a loop over the children that renames each rule
   * and descends into every container.
   */
  method RenameRules(ns: seq<Node>, replace: string -> string) returns (r: seq<Node>)
    ensures r == RenameNodes(ns, replace)
    decreases SizeOf(ns), 1
  {
    r := [];
    var i := 0;
    while i < |ns|
      invariant 0 <= i <= |ns|
      invariant RenameNodes(ns, replace) == r + RenameNodes(ns[i..], replace)
    {
      ChildSize(ns, i);
      var renamed := RenameChild(ns[i], replace);
      RenameStep(ns, i, r, renamed, replace);
      r := r + [renamed];
      i := i + 1;
    }
    assert ns[|ns|..] == [];
  }

  /** One child: a rule gets its new selector, and every container has its own children renamed. */
  method RenameChild(child: Node, replace: string -> string) returns (renamed: Node)
    ensures [renamed] == RenameNodes([child], replace)
    decreases SizeOf([child]), 0
  {
    assert [child][0] == child && [child][1..] == [];
    renamed := child;
    if child.IsContainer() {
      ChildrenSmaller([child], 0);
      var kids := RenameRules(child.nodes, replace);
      if child.Rule? {
        renamed := Rule(replace(child.selector), kids);
      } else {
        renamed := AtRule(child.name, child.params, kids);
      }
    }
  }
}

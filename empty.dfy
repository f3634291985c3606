/**
 * The `empty` plugin of src/empty.js: `walkRules` calls `ancestors` on every
 * rule; `ancestors` detaches a rule that has no child nodes and then gives
 * its parent the same check, so removal cascades upward through every
 * ancestor left childless.
 */
module EmptyPlugin {
  import opened Css

  // ---------------------------------------------------------------------
  // The net effect of the pass
  // ---------------------------------------------------------------------

  /**
   * The stylesheet after the pass: a rule goes when nothing is left of its
   * children; an at-rule goes when it had children and none is left (an
   * at-rule that starts out empty is never checked, since only rules are);
   * declarations and comments stay.
   */
  function PruneNodes(ns: seq<Node>): (r: seq<Node>)
    ensures SizeOf(r) <= SizeOf(ns)
    decreases SizeOf(ns), 1
  {
    if ns == [] then []
    else
      assert [ns[0]] + ns[1..] == ns;
      SizeOfAppend([ns[0]], ns[1..]);
      var r := PruneOne(ns[0]) + PruneNodes(ns[1..]);
      SizeOfAppend(PruneOne(ns[0]), PruneNodes(ns[1..]));
      r
  }

  /** What the pass leaves of one node: nothing, the node itself, or the container over its pruned children. */
  function PruneOne(x: Node): (r: seq<Node>)
    ensures SizeOf(r) <= SizeOf([x])
    decreases SizeOf([x]), 0
  {
    match x
    case Rule(sel, kids) =>
      ChildrenSmaller([x], 0);
      var k := PruneNodes(kids);
      if k == [] then [] else [Rule(sel, k)]
    case AtRule(name, params, kids) =>
      ChildrenSmaller([x], 0);
      var k := PruneNodes(kids);
      if kids == [] then [x] else if k == [] then [] else [AtRule(name, params, k)]
    case _ => [x]
  }

  /** No rule without child nodes, at any depth. */
  predicate NoEmptyRules(ns: seq<Node>)
    decreases SizeOf(ns)
  {
    ns == [] ||
    ((match ns[0]
      case Rule(_, kids) => kids != [] && NoEmptyRules(kids)
      case AtRule(_, _, kids) => NoEmptyRules(kids)
      case _ => true)
     && NoEmptyRules(ns[1..]))
  }

  lemma {:induction false} PruneAppend(a: seq<Node>, b: seq<Node>)
    ensures PruneNodes(a + b) == PruneNodes(a) + PruneNodes(b)
  {
    if a == [] {
      assert a + b == b;
    } else {
      var k, rest, pb := PruneOne(a[0]), PruneNodes(a[1..]), PruneNodes(b);
      assert PruneNodes(a + b) == k + (rest + pb) by {
        assert (a + b)[0] == a[0] && (a + b)[1..] == a[1..] + b;
        PruneAppend(a[1..], b);
      }
      assert k + (rest + pb) == (k + rest) + pb;
    }
  }

  /** After the pass no rule without child nodes is left anywhere in the stylesheet. */
  lemma {:induction false} PruneLeavesNoEmptyRules(ns: seq<Node>)
    ensures NoEmptyRules(PruneNodes(ns))
    decreases SizeOf(ns)
  {
    if ns != [] {
      var t := PruneNodes(ns[1..]);
      assert [] + t == t;
      PruneLeavesNoEmptyRules(ns[1..]);
      match ns[0]
      case Rule(sel, kids) =>
        var k := PruneNodes(kids);
        PruneLeavesNoEmptyRules(kids);
        if k != [] {
          assert ([Rule(sel, k)] + t)[0] == Rule(sel, k) && ([Rule(sel, k)] + t)[1..] == t;
        }
      case AtRule(name, params, kids) =>
        var k := PruneNodes(kids);
        PruneLeavesNoEmptyRules(kids);
        if kids == [] {
          assert ([ns[0]] + t)[0] == ns[0] && ([ns[0]] + t)[1..] == t;
        } else if k != [] {
          assert ([AtRule(name, params, k)] + t)[0] == AtRule(name, params, k) && ([AtRule(name, params, k)] + t)[1..] == t;
        }
      case _ =>
        assert ([ns[0]] + t)[0] == ns[0] && ([ns[0]] + t)[1..] == t;
    }
  }

  /** A stylesheet with no empty rule is left exactly as it is. */
  lemma {:induction false} PruneKeepsNonEmpty(ns: seq<Node>)
    requires NoEmptyRules(ns)
    ensures PruneNodes(ns) == ns
    decreases SizeOf(ns)
  {
    if ns != [] {
      PruneKeepsNonEmpty(ns[1..]);
      assert [ns[0]] + ns[1..] == ns;
      match ns[0]
      case Rule(_, kids) =>
        PruneKeepsNonEmpty(kids);
      case AtRule(_, _, kids) =>
        PruneKeepsNonEmpty(kids);
      case _ =>
    }
  }

  /**
   * A rule, wherever it sits among its siblings, is kept with its pruned
   * children when some of them survive, and goes when none do; the
   * siblings on either side prune as they would without it.
   */
  lemma PruneRuleInPlace(a: seq<Node>, sel: string, kids: seq<Node>, b: seq<Node>)
    ensures PruneNodes(kids) != [] ==>
      PruneNodes(a + [Rule(sel, kids)] + b) == PruneNodes(a) + [Rule(sel, PruneNodes(kids))] + PruneNodes(b)
    ensures PruneNodes(kids) == [] ==>
      PruneNodes(a + [Rule(sel, kids)] + b) == PruneNodes(a) + PruneNodes(b)
  {
    var x := Rule(sel, kids);
    PruneInPlace(a, x, b);
    var k := PruneNodes(kids);
    assert PruneNodes([x]) == (if k == [] then [] else [Rule(sel, k)]) by {
      assert [x][0] == x && [x][1..] == [];
    }
    if k == [] {
      assert PruneNodes(a) + [] == PruneNodes(a);
    }
  }

  /**
   * An at-rule among its siblings: one that starts without children is
   * kept as it is; one with children is kept with its pruned children when
   * some survive, and goes when none do.
   */
  lemma PruneAtRuleInPlace(a: seq<Node>, name: string, params: string, kids: seq<Node>, b: seq<Node>)
    ensures kids == [] ==>
      PruneNodes(a + [AtRule(name, params, kids)] + b) == PruneNodes(a) + [AtRule(name, params, kids)] + PruneNodes(b)
    ensures kids != [] && PruneNodes(kids) != [] ==>
      PruneNodes(a + [AtRule(name, params, kids)] + b) == PruneNodes(a) + [AtRule(name, params, PruneNodes(kids))] + PruneNodes(b)
    ensures kids != [] && PruneNodes(kids) == [] ==>
      PruneNodes(a + [AtRule(name, params, kids)] + b) == PruneNodes(a) + PruneNodes(b)
  {
    var x := AtRule(name, params, kids);
    PruneInPlace(a, x, b);
    var k := PruneNodes(kids);
    assert PruneNodes([x]) == (if kids == [] then [x] else if k == [] then [] else [AtRule(name, params, k)]) by {
      assert [x][0] == x && [x][1..] == [];
    }
    if kids != [] && k == [] {
      assert PruneNodes(a) + [] == PruneNodes(a);
    }
  }

  /** A node among its siblings prunes on its own: what is left of it sits between what is left of each side. */
  lemma PruneInPlace(a: seq<Node>, x: Node, b: seq<Node>)
    ensures PruneNodes(a + [x] + b) == PruneNodes(a) + PruneNodes([x]) + PruneNodes(b)
  {
    PruneAppend(a + [x], b);
    PruneAppend(a, [x]);
  }

  /** The pass changes a stylesheet exactly when some rule in it has no child nodes. */
  lemma PruneFixedIff(ns: seq<Node>)
    ensures PruneNodes(ns) == ns <==> NoEmptyRules(ns)
  {
    PruneLeavesNoEmptyRules(ns);
    if NoEmptyRules(ns) {
      PruneKeepsNonEmpty(ns);
    }
  }

  /** A second pass removes nothing more. */
  lemma PruneIdempotent(ns: seq<Node>)
    ensures PruneNodes(PruneNodes(ns)) == PruneNodes(ns)
  {
    PruneLeavesNoEmptyRules(ns);
    PruneKeepsNonEmpty(PruneNodes(ns));
  }

  /** Declarations and comments are never removed, and stay in order. */
  lemma {:induction false} PruneKeepsLeaves(ns: seq<Node>)
    ensures Leaves(PruneNodes(ns)) == Leaves(ns)
    decreases SizeOf(ns), 1
  {
    if ns != [] {
      ChildSize(ns, 0);
      PruneOneKeepsLeaves(ns[0]);
      PruneKeepsLeaves(ns[1..]);
      LeavesAppend(PruneOne(ns[0]), PruneNodes(ns[1..]));
      assert Leaves(ns) == Leaves([ns[0]]) + Leaves(ns[1..]) by {
        assert [ns[0]] + ns[1..] == ns;
        LeavesAppend([ns[0]], ns[1..]);
      }
    }
  }

  /** PruneKeepsLeaves for a single node. */
  lemma {:induction false} PruneOneKeepsLeaves(x: Node)
    ensures Leaves(PruneOne(x)) == Leaves([x])
    decreases SizeOf([x]), 0
  {
    assert [x][0] == x && [x][1..] == [];
    if x.IsContainer() {
      ChildrenSmaller([x], 0);
      PruneKeepsLeaves(x.nodes);
      var k := PruneNodes(x.nodes);
      assert Leaves([x]) == Leaves(x.nodes) + [];
      if PruneOne(x) != [] && PruneOne(x) != [x] {
        var y := PruneOne(x)[0];
        assert PruneOne(x) == [y] && y.IsContainer() && y.nodes == k;
        assert [y][0] == y && [y][1..] == [];
        assert Leaves([y]) == Leaves(k) + [];
      }
    }
  }

  // ---------------------------------------------------------------------
  // `ancestors`: the upward cascade through parent links
  // ---------------------------------------------------------------------

  /** The node holding a child: the stylesheet root, a rule or an at-rule. */
  datatype Owner = RootOwner | RuleOwner(selector: string) | AtOwner(name: string, params: string)

  /**
   * One parent link seen from below: the parent, and the siblings before and
   * after the child. A path lists the frames from the child's parent up to
   * the root.
   */
  datatype Frame = Frame(owner: Owner, left: seq<Node>, right: seq<Node>)

  /** The frames go up from a parent to the root, and only the last is the root. */
  predicate ValidPath(path: seq<Frame>)
  {
    |path| >= 1 && path[|path| - 1].owner.RootOwner? &&
    forall i :: 0 <= i < |path| - 1 ==> !path[i].owner.RootOwner?
  }

  /** Above a parent that is not the root, the rest of the path is a path again. */
  lemma ValidPathTail(path: seq<Frame>)
    requires ValidPath(path) && |path| > 1
    ensures ValidPath(path[1..]) && !path[0].owner.RootOwner?
  {
    forall i | 0 <= i < |path[1..]| - 1 ensures !path[1..][i].owner.RootOwner? {
      assert path[1..][i] == path[i + 1];
    }
  }

  /** The rule or at-rule an owner stands for, with children `kids`. */
  function Rebuild(owner: Owner, kids: seq<Node>): (n: Node)
    requires !owner.RootOwner?
    ensures n.IsContainer() && n.nodes == kids
  {
    match owner
    case RuleOwner(sel) => Rule(sel, kids)
    case AtOwner(name, params) => AtRule(name, params, kids)
  }

  /** The stylesheet's top-level nodes, with `hole` put where the path leads. */
  function Plug(hole: seq<Node>, path: seq<Frame>): seq<Node>
    requires ValidPath(path)
    decreases |path|
  {
    var siblings := path[0].left + hole + path[0].right;
    if |path| == 1 then siblings
    else Plug([Rebuild(path[0].owner, siblings)], path[1..])
  }

  /**
   * `ancestors(rule)` on the node `x` that `path` leads to: nothing happens
   * if it has child nodes; otherwise it is detached and its parent gets the
   * same check. At the root the cascade ends either way: the root has no
   * parent to be detached from or to recurse into.
   */
  function Ancestors(x: Node, path: seq<Frame>): seq<Node>
    requires x.IsContainer() && ValidPath(path)
    decreases |path|
  {
    if x.nodes != [] then Plug([x], path)
    else
      var siblings := path[0].left + path[0].right;
      if |path| == 1 then siblings
      else Ancestors(Rebuild(path[0].owner, siblings), path[1..])
  }

  /** What the pass makes of a single rule or at-rule with children `kids`. */
  lemma PruneRebuilt(owner: Owner, kids: seq<Node>)
    requires !owner.RootOwner?
    ensures owner.RuleOwner? ==>
      PruneNodes([Rebuild(owner, kids)]) == (if PruneNodes(kids) == [] then [] else [Rebuild(owner, PruneNodes(kids))])
    ensures owner.AtOwner? && kids != [] ==>
      PruneNodes([Rebuild(owner, kids)]) == (if PruneNodes(kids) == [] then [] else [Rebuild(owner, PruneNodes(kids))])
  {
    var x := Rebuild(owner, kids);
    assert [x][0] == x && [x][1..] == [];
  }

  /** Putting two nodes that prune alike in the same place gives stylesheets that prune alike. */
  lemma {:induction false} PlugCongruent(a: Node, b: Node, path: seq<Frame>)
    requires ValidPath(path)
    requires PruneNodes([a]) == PruneNodes([b])
    ensures PruneNodes(Plug([a], path)) == PruneNodes(Plug([b], path))
    decreases |path|
  {
    var f := path[0];
    PruneAppend(f.left + [a], f.right);
    PruneAppend(f.left, [a]);
    PruneAppend(f.left + [b], f.right);
    PruneAppend(f.left, [b]);
    if |path| > 1 {
      ValidPathTail(path);
      var sa, sb := f.left + [a] + f.right, f.left + [b] + f.right;
      PruneRebuilt(f.owner, sa);
      PruneRebuilt(f.owner, sb);
      PlugCongruent(Rebuild(f.owner, sa), Rebuild(f.owner, sb), path[1..]);
    }
  }

  /** A node that prunes to nothing can be taken out of its siblings without changing what they prune to. */
  lemma DropPruned(left: seq<Node>, orig: Node, right: seq<Node>)
    requires PruneNodes([orig]) == []
    ensures PruneNodes(left + [orig] + right) == PruneNodes(left + right)
  {
    PruneAppend(left + [orig], right);
    PruneAppend(left, [orig]);
    PruneAppend(left, right);
  }

  /**
   * `ancestors` on a node left childless removes only what the pass as a
   * whole removes: if `x` stands where a subtree `orig` that the pass
   * removes entirely stood, the cascade leaves a stylesheet that prunes to
   * the same result as the original.
   */
  lemma {:induction false} AncestorsSound(x: Node, orig: Node, path: seq<Frame>)
    requires x.IsContainer() && x.nodes == [] && ValidPath(path)
    requires PruneNodes([orig]) == []
    ensures PruneNodes(Ancestors(x, path)) == PruneNodes(Plug([orig], path))
    decreases |path|
  {
    var f := path[0];
    var siblings, full := f.left + f.right, f.left + [orig] + f.right;
    if |path| == 1 {
      DropPruned(f.left, orig, f.right);
    } else {
      ValidPathTail(path);
      var up, upOrig := Rebuild(f.owner, siblings), Rebuild(f.owner, full);
      assert Ancestors(x, path) == Ancestors(up, path[1..]);
      assert Plug([orig], path) == Plug([upOrig], path[1..]);
      assert PruneNodes(Ancestors(up, path[1..])) == PruneNodes(Plug([upOrig], path[1..])) by {
        DropPruned(f.left, orig, f.right);
        if siblings == [] {
          assert full == [orig];
          PruneRebuilt(f.owner, full);
          AncestorsSound(up, upOrig, path[1..]);
        } else {
          PruneRebuilt(f.owner, siblings);
          PruneRebuilt(f.owner, full);
          PlugCongruent(up, upOrig, path[1..]);
        }
      }
    }
  }

  /** The call the pass makes on a rule without child nodes: the cascade is a step towards the pass's result. */
  lemma AncestorsOnEmptyRule(sel: string, path: seq<Frame>)
    requires ValidPath(path)
    ensures PruneNodes(Ancestors(Rule(sel, []), path)) == PruneNodes(Plug([Rule(sel, [])], path))
  {
    assert PruneNodes([Rule(sel, [])]) == [] by {
      assert [Rule(sel, [])][1..] == [];
    }
    AncestorsSound(Rule(sel, []), Rule(sel, []), path);
  }

  /**
   * A node with child nodes is left where it is; a childless one is
   * detached, so the stylesheet shrinks; declarations and comments are never
   * removed by the cascade.
   */
  lemma {:induction false} AncestorsEffect(x: Node, path: seq<Frame>)
    requires x.IsContainer() && ValidPath(path)
    ensures x.nodes != [] ==> Ancestors(x, path) == Plug([x], path)
    ensures x.nodes == [] ==> SizeOf(Ancestors(x, path)) < SizeOf(Plug([x], path))
    ensures Leaves(Ancestors(x, path)) == Leaves(Plug([x], path))
    decreases |path|
  {
    if x.nodes == [] {
      var f := path[0];
      DropChildless(f.left, x, f.right);
      if |path| > 1 {
        ValidPathTail(path);
        var siblings, full := f.left + f.right, f.left + [x] + f.right;
        var y := Rebuild(f.owner, siblings);
        assert Ancestors(x, path) == Ancestors(y, path[1..]);
        assert Plug([x], path) == Plug([Rebuild(f.owner, full)], path[1..]);
        AncestorsEffect(y, path[1..]);
        RebuiltSmaller(f.owner, siblings, full);
        ShrinkInPlace(y, Rebuild(f.owner, full), path[1..]);
      }
    }
  }

  /** Taking a childless container out of its siblings removes one node and no leaf. */
  lemma DropChildless(left: seq<Node>, x: Node, right: seq<Node>)
    requires x.IsContainer() && x.nodes == []
    ensures SizeOf(left + right) < SizeOf(left + [x] + right)
    ensures Leaves(left + right) == Leaves(left + [x] + right)
  {
    LeavesAppend(left + [x], right);
    LeavesAppend(left, [x]);
    LeavesAppend(left, right);
    SizeOfAppend(left + [x], right);
    SizeOfAppend(left, [x]);
    SizeOfAppend(left, right);
    assert [x][0] == x && [x][1..] == [];
  }

  lemma RebuiltSmaller(owner: Owner, small: seq<Node>, big: seq<Node>)
    requires !owner.RootOwner?
    requires SizeOf(small) < SizeOf(big) && Leaves(small) == Leaves(big)
    ensures SizeOf([Rebuild(owner, small)]) < SizeOf([Rebuild(owner, big)])
    ensures Leaves([Rebuild(owner, small)]) == Leaves([Rebuild(owner, big)])
  {
    var a, b := Rebuild(owner, small), Rebuild(owner, big);
    assert [a][0] == a && [a][1..] == [] && [b][0] == b && [b][1..] == [];
  }

  lemma {:induction false} LeavesAppend(a: seq<Node>, b: seq<Node>)
    ensures Leaves(a + b) == Leaves(a) + Leaves(b)
  {
    if a == [] {
      assert a + b == b;
    } else {
      assert (a + b)[0] == a[0] && (a + b)[1..] == a[1..] + b;
      LeavesAppend(a[1..], b);
    }
  }

  /** Replacing a node by a smaller one with the same leaves shrinks the stylesheet and keeps its leaves. */
  lemma {:induction false} ShrinkInPlace(small: Node, big: Node, path: seq<Frame>)
    requires ValidPath(path)
    requires SizeOf([small]) < SizeOf([big]) && Leaves([small]) == Leaves([big])
    ensures SizeOf(Plug([small], path)) < SizeOf(Plug([big], path))
    ensures Leaves(Plug([small], path)) == Leaves(Plug([big], path))
    decreases |path|
  {
    var f := path[0];
    var ss, sb := f.left + [small] + f.right, f.left + [big] + f.right;
    SizeOfAppend(f.left + [small], f.right);
    SizeOfAppend(f.left, [small]);
    SizeOfAppend(f.left + [big], f.right);
    SizeOfAppend(f.left, [big]);
    LeavesAppend(f.left + [small], f.right);
    LeavesAppend(f.left, [small]);
    LeavesAppend(f.left + [big], f.right);
    LeavesAppend(f.left, [big]);
    if |path| > 1 {
      ValidPathTail(path);
      var ys, yb := Rebuild(f.owner, ss), Rebuild(f.owner, sb);
      assert [ys][0] == ys && [ys][1..] == [] && [yb][0] == yb && [yb][1..] == [];
      ShrinkInPlace(ys, yb, path[1..]);
    }
  }

  // ---------------------------------------------------------------------
  // The pass over a stylesheet
  // ---------------------------------------------------------------------

  /** One turn of the pass's loop: what is left of the visited node joins the pruned prefix. */
  lemma PruneStep(ns: seq<Node>, i: nat, r: seq<Node>, kept: seq<Node>)
    requires i < |ns| && kept == PruneNodes([ns[i]])
    ensures r + PruneNodes(ns[i..]) == (r + kept) + PruneNodes(ns[i + 1..])
  {
    assert ns[i..] == [ns[i]] + ns[i + 1..];
    PruneAppend([ns[i]], ns[i + 1..]);
  }

  /**
   * The pass over the forest `ns`, children first: a loop that keeps each
   * node unless the cascade would detach it.
   */
  method PruneRules(ns: seq<Node>) returns (r: seq<Node>)
    ensures r == PruneNodes(ns)
    decreases SizeOf(ns), 1
  {
    r := [];
    var i := 0;
    while i < |ns|
      invariant 0 <= i <= |ns|
      invariant PruneNodes(ns) == r + PruneNodes(ns[i..])
    {
      ChildSize(ns, i);
      var kept := PruneChild(ns[i]);
      PruneStep(ns, i, r, kept);
      r := r + kept;
      i := i + 1;
    }
    assert ns[|ns|..] == [];
  }

  /** One node: a container has its children pruned first and is detached when that leaves it childless. */
  method PruneChild(child: Node) returns (kept: seq<Node>)
    ensures kept == PruneNodes([child])
    decreases SizeOf([child]), 0
  {
    assert [child][0] == child && [child][1..] == [];
    match child
    case Rule(sel, kids) =>
      ChildrenSmaller([child], 0);
      var k := PruneRules(kids);
      kept := if k == [] then [] else [Rule(sel, k)];
    case AtRule(name, params, kids) =>
      if kids == [] {
        kept := [child];
      } else {
        ChildrenSmaller([child], 0);
        var k := PruneRules(kids);
        kept := if k == [] then [] else [AtRule(name, params, k)];
      }
    case _ =>
      kept := [child];
  }
}

/**
 * The `remove` plugin of src/remove.js: for every rule, `walkDecls` visits
 * every declaration below it (at any depth) and removes the declaration
 * when `filter(decl.parent.selector)` is truthy and its property is one of
 * `[].concat(property)`.
 */
module RemovePlugin {
  import opened Wrappers
  import opened Css

  /** The `property` option: `null` (the default), one name, or a list of names. */
  datatype Property = NoProperty | Single(name: string) | Many(names: seq<string>)

  /** `[].concat(property).includes(prop)`: `[null]` holds no property name. */
  predicate Targets(property: Property, prop: string)
  {
    match property
    case NoProperty => false
    case Single(name) => prop == name
    case Many(names) => prop in names
  }

  /**
   * The `filter` option, given the parent's selector (None when the parent
   * has no selector, as an at-rule does) and reduced to its truthiness.
   */
  type Filter = Option<string> -> bool

  /** The default `filter`, `Function.prototype`: it returns undefined, which is falsy. */
  function NoFilter(parent: Option<string>): bool
  {
    false
  }

  /**
   * Whether the plugin removes a declaration with property `prop`: only one
   * with a rule among its ancestors is ever visited, and `parent` is the
   * selector of the node directly holding it.
   */
  predicate Drops(underRule: bool, parent: Option<string>, prop: string, filter: Filter, property: Property)
  {
    underRule && filter(parent) && Targets(property, prop)
  }

  /**
   * The net effect of the plugin on the forest `ns`, whose holder has
   * selector `parent` and lies under a rule iff `underRule`. The stylesheet
   * itself is RemoveNodes(root, false, None, ...).
   */
  function RemoveNodes(ns: seq<Node>, underRule: bool, parent: Option<string>, filter: Filter, property: Property): (r: seq<Node>)
    ensures SizeOf(r) <= SizeOf(ns)
    decreases SizeOf(ns)
  {
    if ns == [] then []
    else
      var t := RemoveNodes(ns[1..], underRule, parent, filter, property);
      match ns[0]
      case Decl(prop, _) =>
        if Drops(underRule, parent, prop, filter, property) then t else [ns[0]] + t
      case Rule(sel, kids) =>
        var k := RemoveNodes(kids, true, Some(sel), filter, property);
        assert SizeOf([Rule(sel, k)] + t) == 1 + SizeOf(k) + SizeOf(t) by {
          assert ([Rule(sel, k)] + t)[1..] == t;
        }
        [Rule(sel, k)] + t
      case AtRule(name, params, kids) =>
        var k := RemoveNodes(kids, underRule, None, filter, property);
        assert SizeOf([AtRule(name, params, k)] + t) == 1 + SizeOf(k) + SizeOf(t) by {
          assert ([AtRule(name, params, k)] + t)[1..] == t;
        }
        [AtRule(name, params, k)] + t
      case Comment(_) =>
        assert ([ns[0]] + t)[1..] == t;
        [ns[0]] + t
  }

  // ---------------------------------------------------------------------
  // Reference views: the tree without its declarations, and the declarations with their context
  // ---------------------------------------------------------------------

  /** Rules (with their selectors), at-rules and comments at every depth, in order; declarations dropped. */
  function Skeleton(ns: seq<Node>): seq<Node>
  {
    if ns == [] then []
    else
      match ns[0]
      case Decl(_, _) => Skeleton(ns[1..])
      case Rule(sel, kids) => [Rule(sel, Skeleton(kids))] + Skeleton(ns[1..])
      case AtRule(name, params, kids) => [AtRule(name, params, Skeleton(kids))] + Skeleton(ns[1..])
      case Comment(_) => [ns[0]] + Skeleton(ns[1..])
  }

  /**
   * `r` is `ns` with some declarations deleted, at any depth, and nothing
   * else changed: every other node keeps its place among its siblings, each
   * rule and at-rule is matched one-to-one with the same selector, or name
   * and params, and a declaration that stays is the same declaration.
   */
  predicate DeclsDeletedFrom(r: seq<Node>, ns: seq<Node>)
    decreases SizeOf(ns)
  {
    if ns == [] then r == []
    else
      match ns[0]
      case Decl(_, _) =>
        DeclsDeletedFrom(r, ns[1..]) || (r != [] && r[0] == ns[0] && DeclsDeletedFrom(r[1..], ns[1..]))
      case Comment(_) =>
        r != [] && r[0] == ns[0] && DeclsDeletedFrom(r[1..], ns[1..])
      case Rule(sel, kids) =>
        r != [] && r[0].Rule? && r[0].selector == sel
        && DeclsDeletedFrom(r[0].nodes, kids) && DeclsDeletedFrom(r[1..], ns[1..])
      case AtRule(name, params, kids) =>
        r != [] && r[0].AtRule? && r[0].name == name && r[0].params == params
        && DeclsDeletedFrom(r[0].nodes, kids) && DeclsDeletedFrom(r[1..], ns[1..])
  }

  /** One declaration together with what the plugin's decision about it can depend on. */
  datatype Site = Site(prop: string, value: string, underRule: bool, parent: Option<string>)

  /** Every declaration at every depth, in document order, with its context. */
  function Sites(ns: seq<Node>, underRule: bool, parent: Option<string>): seq<Site>
  {
    if ns == [] then []
    else
      match ns[0]
      case Decl(prop, value) => [Site(prop, value, underRule, parent)] + Sites(ns[1..], underRule, parent)
      case Rule(sel, kids) => Sites(kids, true, Some(sel)) + Sites(ns[1..], underRule, parent)
      case AtRule(_, _, kids) => Sites(kids, underRule, None) + Sites(ns[1..], underRule, parent)
      case Comment(_) => Sites(ns[1..], underRule, parent)
  }

  /** The sites the plugin keeps, in order. */
  function Survivors(sites: seq<Site>, filter: Filter, property: Property): seq<Site>
  {
    if sites == [] then [] else Keep(sites[0], filter, property) + Survivors(sites[1..], filter, property)
  }

  /** The site itself if the plugin keeps it, nothing if it drops it. */
  function Keep(x: Site, filter: Filter, property: Property): seq<Site>
  {
    if Drops(x.underRule, x.parent, x.prop, filter, property) then [] else [x]
  }

  lemma {:induction false} SurvivorsAppend(a: seq<Site>, b: seq<Site>, filter: Filter, property: Property)
    ensures Survivors(a + b, filter, property) == Survivors(a, filter, property) + Survivors(b, filter, property)
  {
    if a == [] {
      assert a + b == b;
    } else {
      var k := Keep(a[0], filter, property);
      var rest := Survivors(a[1..], filter, property);
      var sb := Survivors(b, filter, property);
      assert Survivors(a + b, filter, property) == k + (rest + sb) by {
        assert (a + b)[0] == a[0] && (a + b)[1..] == a[1..] + b;
        SurvivorsAppend(a[1..], b, filter, property);
      }
      assert k + (rest + sb) == (k + rest) + sb;
    }
  }

  // ---------------------------------------------------------------------
  // What the plugin changes, and what it does not
  // ---------------------------------------------------------------------

  /** Rules, selectors, at-rules, comments and their order are untouched: only declarations go. */
  lemma {:induction false} RemoveKeepsSkeleton(ns: seq<Node>, underRule: bool, parent: Option<string>, filter: Filter, property: Property)
    ensures Skeleton(RemoveNodes(ns, underRule, parent, filter, property)) == Skeleton(ns)
    decreases SizeOf(ns)
  {
    if ns != [] {
      var t := RemoveNodes(ns[1..], underRule, parent, filter, property);
      RemoveKeepsSkeleton(ns[1..], underRule, parent, filter, property);
      match ns[0]
      case Decl(prop, _) =>
        assert ([ns[0]] + t)[0] == ns[0] && ([ns[0]] + t)[1..] == t;
      case Rule(sel, kids) =>
        var k := RemoveNodes(kids, true, Some(sel), filter, property);
        RemoveKeepsSkeleton(kids, true, Some(sel), filter, property);
        assert ([Rule(sel, k)] + t)[0] == Rule(sel, k) && ([Rule(sel, k)] + t)[1..] == t;
      case AtRule(name, params, kids) =>
        var k := RemoveNodes(kids, underRule, None, filter, property);
        RemoveKeepsSkeleton(kids, underRule, None, filter, property);
        assert ([AtRule(name, params, k)] + t)[0] == AtRule(name, params, k) && ([AtRule(name, params, k)] + t)[1..] == t;
      case Comment(_) =>
        assert ([ns[0]] + t)[0] == ns[0] && ([ns[0]] + t)[1..] == t;
    }
  }

  /**
   * The plugin only deletes declarations: the result embeds in the input
   * with every other node in place, so survivors keep their position
   * relative to comments and to sibling containers.
   */
  lemma {:induction false} RemoveDeletesOnlyDecls(ns: seq<Node>, underRule: bool, parent: Option<string>, filter: Filter, property: Property)
    ensures DeclsDeletedFrom(RemoveNodes(ns, underRule, parent, filter, property), ns)
    decreases SizeOf(ns)
  {
    if ns != [] {
      var t := RemoveNodes(ns[1..], underRule, parent, filter, property);
      RemoveDeletesOnlyDecls(ns[1..], underRule, parent, filter, property);
      match ns[0]
      case Decl(prop, _) =>
        assert ([ns[0]] + t)[0] == ns[0] && ([ns[0]] + t)[1..] == t;
      case Rule(sel, kids) =>
        var k := RemoveNodes(kids, true, Some(sel), filter, property);
        RemoveDeletesOnlyDecls(kids, true, Some(sel), filter, property);
        assert ([Rule(sel, k)] + t)[0] == Rule(sel, k) && ([Rule(sel, k)] + t)[1..] == t;
      case AtRule(name, params, kids) =>
        var k := RemoveNodes(kids, underRule, None, filter, property);
        RemoveDeletesOnlyDecls(kids, underRule, None, filter, property);
        assert ([AtRule(name, params, k)] + t)[0] == AtRule(name, params, k) && ([AtRule(name, params, k)] + t)[1..] == t;
      case Comment(_) =>
        assert ([ns[0]] + t)[0] == ns[0] && ([ns[0]] + t)[1..] == t;
    }
  }

  /** Moving a declaration past a sibling comment is not a deletion of declarations. */
  lemma NoMovePastComment(d: Node, c: Node)
    requires d.Decl? && c.Comment?
    ensures !DeclsDeletedFrom([c, d], [d, c])
  {
    assert [c, d][1..] == [d] && [d, c][1..] == [c] && [c][1..] == [];
    assert !DeclsDeletedFrom([d], []);
    assert !DeclsDeletedFrom([c, d], [c]);
  }

  /**
   * The declarations left are exactly those the plugin does not drop, in
   * their original order and context: one is removed iff it is under a
   * rule, the filter accepts its parent's selector, and its property is
   * targeted.
   */
  lemma {:induction false} RemoveSites(ns: seq<Node>, underRule: bool, parent: Option<string>, filter: Filter, property: Property)
    ensures Sites(RemoveNodes(ns, underRule, parent, filter, property), underRule, parent)
      == Survivors(Sites(ns, underRule, parent), filter, property)
    decreases SizeOf(ns)
  {
    if ns != [] {
      RemoveSites(ns[1..], underRule, parent, filter, property);
      assert ns == [ns[0]] + ns[1..];
      match ns[0]
      case Decl(prop, value) =>
        SitesStepDecl(prop, value, ns[1..], underRule, parent, filter, property);
      case Rule(sel, kids) =>
        RemoveSites(kids, true, Some(sel), filter, property);
        SitesStepRule(sel, kids, ns[1..], underRule, parent, filter, property);
      case AtRule(name, params, kids) =>
        RemoveSites(kids, underRule, None, filter, property);
        SitesStepAtRule(name, params, kids, ns[1..], underRule, parent, filter, property);
      case Comment(_) =>
        var t := RemoveNodes(ns[1..], underRule, parent, filter, property);
        assert ([ns[0]] + t)[0] == ns[0] && ([ns[0]] + t)[1..] == t;
    }
  }

  /** RemoveSites for a forest headed by a declaration, given it for the tail. */
  lemma SitesStepDecl(prop: string, value: string, rest: seq<Node>, underRule: bool, parent: Option<string>, filter: Filter, property: Property)
    requires Sites(RemoveNodes(rest, underRule, parent, filter, property), underRule, parent)
      == Survivors(Sites(rest, underRule, parent), filter, property)
    ensures Sites(RemoveNodes([Decl(prop, value)] + rest, underRule, parent, filter, property), underRule, parent)
      == Survivors(Sites([Decl(prop, value)] + rest, underRule, parent), filter, property)
  {
    var ns := [Decl(prop, value)] + rest;
    assert ns[0] == Decl(prop, value) && ns[1..] == rest;
    var t := RemoveNodes(rest, underRule, parent, filter, property);
    var x := Site(prop, value, underRule, parent);
    assert ([ns[0]] + t)[0] == ns[0] && ([ns[0]] + t)[1..] == t;
    assert ([x] + Sites(rest, underRule, parent))[0] == x;
    assert ([x] + Sites(rest, underRule, parent))[1..] == Sites(rest, underRule, parent);
  }

  /** RemoveSites for a forest headed by a rule, given it for the rule's children and for the tail. */
  lemma SitesStepRule(sel: string, kids: seq<Node>, rest: seq<Node>, underRule: bool, parent: Option<string>, filter: Filter, property: Property)
    requires Sites(RemoveNodes(kids, true, Some(sel), filter, property), true, Some(sel))
      == Survivors(Sites(kids, true, Some(sel)), filter, property)
    requires Sites(RemoveNodes(rest, underRule, parent, filter, property), underRule, parent)
      == Survivors(Sites(rest, underRule, parent), filter, property)
    ensures Sites(RemoveNodes([Rule(sel, kids)] + rest, underRule, parent, filter, property), underRule, parent)
      == Survivors(Sites([Rule(sel, kids)] + rest, underRule, parent), filter, property)
  {
    var ns := [Rule(sel, kids)] + rest;
    assert ns[0] == Rule(sel, kids) && ns[1..] == rest;
    var t := RemoveNodes(rest, underRule, parent, filter, property);
    var k := RemoveNodes(kids, true, Some(sel), filter, property);
    assert ([Rule(sel, k)] + t)[0] == Rule(sel, k) && ([Rule(sel, k)] + t)[1..] == t;
    SurvivorsAppend(Sites(kids, true, Some(sel)), Sites(rest, underRule, parent), filter, property);
  }

  /** RemoveSites for a forest headed by an at-rule, given it for the at-rule's children and for the tail. */
  lemma SitesStepAtRule(name: string, params: string, kids: seq<Node>, rest: seq<Node>, underRule: bool, parent: Option<string>,
                        filter: Filter, property: Property)
    requires Sites(RemoveNodes(kids, underRule, None, filter, property), underRule, None)
      == Survivors(Sites(kids, underRule, None), filter, property)
    requires Sites(RemoveNodes(rest, underRule, parent, filter, property), underRule, parent)
      == Survivors(Sites(rest, underRule, parent), filter, property)
    ensures Sites(RemoveNodes([AtRule(name, params, kids)] + rest, underRule, parent, filter, property), underRule, parent)
      == Survivors(Sites([AtRule(name, params, kids)] + rest, underRule, parent), filter, property)
  {
    var ns := [AtRule(name, params, kids)] + rest;
    assert ns[0] == AtRule(name, params, kids) && ns[1..] == rest;
    var t := RemoveNodes(rest, underRule, parent, filter, property);
    var k := RemoveNodes(kids, underRule, None, filter, property);
    assert ([AtRule(name, params, k)] + t)[0] == AtRule(name, params, k) && ([AtRule(name, params, k)] + t)[1..] == t;
    SurvivorsAppend(Sites(kids, underRule, None), Sites(rest, underRule, parent), filter, property);
  }

  /**
   * Nothing is removed when the filter rejects every selector (the default
   * filter does) or no property is targeted (the default `null` targets
   * none).
   */
  lemma {:induction false} RemoveNothing(ns: seq<Node>, underRule: bool, parent: Option<string>, filter: Filter, property: Property)
    requires property == NoProperty || forall o :: !filter(o)
    ensures RemoveNodes(ns, underRule, parent, filter, property) == ns
    decreases SizeOf(ns)
  {
    if ns != [] {
      RemoveNothing(ns[1..], underRule, parent, filter, property);
      assert [ns[0]] + ns[1..] == ns;
      match ns[0]
      case Decl(_, _) =>
      case Rule(sel, kids) =>
        RemoveNothing(kids, true, Some(sel), filter, property);
      case AtRule(_, _, kids) =>
        RemoveNothing(kids, underRule, None, filter, property);
      case Comment(_) =>
    }
  }

  /** The defaults together remove nothing. */
  lemma RemoveDefaults(ns: seq<Node>)
    ensures RemoveNodes(ns, false, None, NoFilter, NoProperty) == ns
  {
    RemoveNothing(ns, false, None, NoFilter, NoProperty);
  }

  /** A declaration outside every rule (at the root, or in at-rules outside any rule) is never removed. */
  lemma RemoveOutsideRules(ns: seq<Node>, underRule: bool, parent: Option<string>, filter: Filter, property: Property)
    ensures forall x :: x in Sites(ns, underRule, parent) && !x.underRule ==>
      x in Sites(RemoveNodes(ns, underRule, parent, filter, property), underRule, parent)
  {
    RemoveSites(ns, underRule, parent, filter, property);
    SurvivorsKeep(Sites(ns, underRule, parent), filter, property);
  }

  /** A site the plugin does not drop is among the survivors. */
  lemma {:induction false} SurvivorsKeep(sites: seq<Site>, filter: Filter, property: Property)
    ensures forall x :: x in sites && !Drops(x.underRule, x.parent, x.prop, filter, property) ==>
      x in Survivors(sites, filter, property)
  {
    if sites != [] {
      SurvivorsKeep(sites[1..], filter, property);
      assert forall x :: x in sites ==> x == sites[0] || x in sites[1..];
    }
  }

  /** Every survivor is a site the plugin does not drop. */
  lemma {:induction false} SurvivorsDropNothing(sites: seq<Site>, filter: Filter, property: Property)
    ensures forall x :: x in Survivors(sites, filter, property) ==>
      x in sites && !Drops(x.underRule, x.parent, x.prop, filter, property)
  {
    if sites != [] {
      SurvivorsDropNothing(sites[1..], filter, property);
    }
  }

  /** Removing twice removes nothing more: the decision depends only on the declaration's own context. */
  lemma {:induction false} RemoveIdempotent(ns: seq<Node>, underRule: bool, parent: Option<string>, filter: Filter, property: Property)
    ensures var once := RemoveNodes(ns, underRule, parent, filter, property);
      RemoveNodes(once, underRule, parent, filter, property) == once
    decreases SizeOf(ns)
  {
    if ns != [] {
      var t := RemoveNodes(ns[1..], underRule, parent, filter, property);
      RemoveIdempotent(ns[1..], underRule, parent, filter, property);
      match ns[0]
      case Decl(prop, _) =>
        assert ([ns[0]] + t)[0] == ns[0] && ([ns[0]] + t)[1..] == t;
      case Rule(sel, kids) =>
        var k := RemoveNodes(kids, true, Some(sel), filter, property);
        RemoveIdempotent(kids, true, Some(sel), filter, property);
        assert ([Rule(sel, k)] + t)[0] == Rule(sel, k) && ([Rule(sel, k)] + t)[1..] == t;
      case AtRule(name, params, kids) =>
        var k := RemoveNodes(kids, underRule, None, filter, property);
        RemoveIdempotent(kids, underRule, None, filter, property);
        assert ([AtRule(name, params, k)] + t)[0] == AtRule(name, params, k) && ([AtRule(name, params, k)] + t)[1..] == t;
      case Comment(_) =>
        assert ([ns[0]] + t)[0] == ns[0] && ([ns[0]] + t)[1..] == t;
    }
  }

  /** A single property name means the same as a list holding just that name. */
  lemma {:induction false} SingleIsList(ns: seq<Node>, underRule: bool, parent: Option<string>, filter: Filter, name: string)
    ensures RemoveNodes(ns, underRule, parent, filter, Single(name)) == RemoveNodes(ns, underRule, parent, filter, Many([name]))
    decreases SizeOf(ns)
  {
    if ns != [] {
      SingleIsList(ns[1..], underRule, parent, filter, name);
      match ns[0]
      case Decl(_, _) =>
      case Rule(sel, kids) =>
        SingleIsList(kids, true, Some(sel), filter, name);
      case AtRule(_, _, kids) =>
        SingleIsList(kids, underRule, None, filter, name);
      case Comment(_) =>
    }
  }

  // ---------------------------------------------------------------------
  // The plugin as the source runs it: walkRules, and walkDecls inside each rule
  // ---------------------------------------------------------------------

  /**
   * `tree.walkRules(rule => rule.walkDecls(...))`: each rule first has every
   * declaration below it swept (with each declaration's own parent
   * selector), then the walk goes on into the rule's (swept) children, so a
   * declaration under several rules is visited once per ancestor rule.
   */
  function WalkRulesRemove(ns: seq<Node>, filter: Filter, property: Property): (r: seq<Node>)
    decreases SizeOf(ns), 1
  {
    if ns == [] then []
    else
      SizeOfAppend([ns[0]], ns[1..]);
      assert [ns[0]] + ns[1..] == ns;
      [WalkRuleNode(ns[0], filter, property)] + WalkRulesRemove(ns[1..], filter, property)
  }

  /** One node met by the rule walk: a rule is swept and walked into, an at-rule walked into, anything else kept. */
  function WalkRuleNode(x: Node, filter: Filter, property: Property): Node
    decreases SizeOf([x]), 0
  {
    match x
    case Rule(sel, kids) =>
      ChildrenSmaller([x], 0);
      Rule(sel, WalkRulesRemove(RemoveNodes(kids, true, Some(sel), filter, property), filter, property))
    case AtRule(name, params, kids) =>
      ChildrenSmaller([x], 0);
      AtRule(name, params, WalkRulesRemove(kids, filter, property))
    case _ => x
  }

  /** A forest the plugin has already been through is left as it is by the rule walk. */
  lemma {:induction false} WalkRulesOnRemoved(ns: seq<Node>, underRule: bool, parent: Option<string>, filter: Filter, property: Property)
    ensures var once := RemoveNodes(ns, underRule, parent, filter, property);
      WalkRulesRemove(once, filter, property) == once
    decreases SizeOf(ns)
  {
    if ns != [] {
      var t := RemoveNodes(ns[1..], underRule, parent, filter, property);
      WalkRulesOnRemoved(ns[1..], underRule, parent, filter, property);
      match ns[0]
      case Decl(prop, _) =>
        assert ([ns[0]] + t)[0] == ns[0] && ([ns[0]] + t)[1..] == t;
      case Rule(sel, kids) =>
        var k := RemoveNodes(kids, true, Some(sel), filter, property);
        RemoveIdempotent(kids, true, Some(sel), filter, property);
        WalkRulesOnRemoved(kids, true, Some(sel), filter, property);
        assert ([Rule(sel, k)] + t)[0] == Rule(sel, k) && ([Rule(sel, k)] + t)[1..] == t;
      case AtRule(name, params, kids) =>
        var k := RemoveNodes(kids, underRule, None, filter, property);
        WalkRulesOnRemoved(kids, underRule, None, filter, property);
        assert ([AtRule(name, params, k)] + t)[0] == AtRule(name, params, k) && ([AtRule(name, params, k)] + t)[1..] == t;
      case Comment(_) =>
        assert ([ns[0]] + t)[0] == ns[0] && ([ns[0]] + t)[1..] == t;
    }
  }

  /**
   * Visiting a declaration once per ancestor rule has the same effect as
   * deciding it once from its own context: the rule walk is the net-effect
   * function on the whole stylesheet.
   */
  lemma {:induction false} WalkRulesIsRemove(ns: seq<Node>, parent: Option<string>, filter: Filter, property: Property)
    ensures WalkRulesRemove(ns, filter, property) == RemoveNodes(ns, false, parent, filter, property)
    decreases SizeOf(ns)
  {
    if ns != [] {
      WalkRulesIsRemove(ns[1..], parent, filter, property);
      match ns[0]
      case Decl(_, _) =>
      case Rule(sel, kids) =>
        WalkRulesOnRemoved(kids, true, Some(sel), filter, property);
      case AtRule(_, _, kids) =>
        WalkRulesIsRemove(kids, None, filter, property);
      case Comment(_) =>
    }
  }

  /** One turn of the walkDecls loop: what is left of the visited node joins the swept prefix. */
  lemma SweepStep(ns: seq<Node>, i: nat, r: seq<Node>, kept: seq<Node>, parent: Option<string>, filter: Filter, property: Property)
    requires i < |ns| && kept == RemoveNodes([ns[i]], true, parent, filter, property)
    ensures r + RemoveNodes(ns[i..], true, parent, filter, property)
      == (r + kept) + RemoveNodes(ns[i + 1..], true, parent, filter, property)
  {
    RemoveAt(ns, i, parent, filter, property);
  }

  /** Removing from the suffix at `i` is removing from its first node, then from the rest. */
  lemma RemoveAt(ns: seq<Node>, i: nat, parent: Option<string>, filter: Filter, property: Property)
    requires i < |ns|
    ensures RemoveNodes(ns[i..], true, parent, filter, property)
      == RemoveNodes([ns[i]], true, parent, filter, property) + RemoveNodes(ns[i + 1..], true, parent, filter, property)
  {
    assert ns[i..] == [ns[i]] + ns[i + 1..];
    RemoveHead(ns[i], ns[i + 1..], true, parent, filter, property);
  }

  /** The plugin treats the first node of a forest apart from the rest. */
  lemma RemoveHead(x: Node, t: seq<Node>, underRule: bool, parent: Option<string>, filter: Filter, property: Property)
    ensures RemoveNodes([x] + t, underRule, parent, filter, property)
      == RemoveNodes([x], underRule, parent, filter, property) + RemoveNodes(t, underRule, parent, filter, property)
  {
    if x.IsContainer() {
      RemoveHeadContainer(x, t, underRule, parent, filter, property);
    } else {
      var rt := RemoveNodes(t, underRule, parent, filter, property);
      assert ([x] + t)[0] == x && ([x] + t)[1..] == t;
      assert [x][0] == x && [x][1..] == [];
      assert [x] + [] == [x] && [] + rt == rt;
      if x.Decl? && Drops(underRule, parent, x.prop, filter, property) {
        assert RemoveNodes([x] + t, underRule, parent, filter, property) == rt;
        assert RemoveNodes([x], underRule, parent, filter, property) == [];
      } else {
        assert RemoveNodes([x] + t, underRule, parent, filter, property) == [x] + rt;
        assert RemoveNodes([x], underRule, parent, filter, property) == [x];
      }
    }
  }

  /** What the plugin leaves of a rule or at-rule: the same container over its swept children. */
  function RemoveContainer(x: Node, underRule: bool, filter: Filter, property: Property): (y: Node)
    requires x.IsContainer()
    decreases SizeOf([x]), 0
  {
    ChildrenSmaller([x], 0);
    match x
    case Rule(sel, kids) => Rule(sel, RemoveNodes(kids, true, Some(sel), filter, property))
    case AtRule(name, params, kids) => AtRule(name, params, RemoveNodes(kids, underRule, None, filter, property))
  }

  lemma RemoveHeadContainer(x: Node, t: seq<Node>, underRule: bool, parent: Option<string>, filter: Filter, property: Property)
    requires x.IsContainer()
    ensures RemoveNodes([x] + t, underRule, parent, filter, property)
      == [RemoveContainer(x, underRule, filter, property)] + RemoveNodes(t, underRule, parent, filter, property)
    ensures RemoveNodes([x], underRule, parent, filter, property) == [RemoveContainer(x, underRule, filter, property)]
  {
    assert ([x] + t)[0] == x && ([x] + t)[1..] == t;
    assert [x][0] == x && [x][1..] == [];
  }

  /** One turn of the rule walk's loop: the visited node joins the walked prefix. */
  lemma WalkRulesStep(ns: seq<Node>, i: nat, r: seq<Node>, visited: Node, filter: Filter, property: Property)
    requires i < |ns| && visited == WalkRuleNode(ns[i], filter, property)
    ensures r + WalkRulesRemove(ns[i..], filter, property) == (r + [visited]) + WalkRulesRemove(ns[i + 1..], filter, property)
  {
    assert ns[i..][0] == ns[i] && ns[i..][1..] == ns[i + 1..];
  }

  /**
   * `rule.walkDecls(decl => filter(decl.parent.selector) && ... && decl.remove())`
   * over the children of a rule: a loop over the forest `ns` held by a node
   * with selector `parent`, descending into every container.
   */
  method SweepDecls(ns: seq<Node>, parent: Option<string>, filter: Filter, property: Property) returns (r: seq<Node>)
    ensures r == RemoveNodes(ns, true, parent, filter, property)
    decreases SizeOf(ns), 1
  {
    r := [];
    var i := 0;
    while i < |ns|
      invariant 0 <= i <= |ns|
      invariant RemoveNodes(ns, true, parent, filter, property) == r + RemoveNodes(ns[i..], true, parent, filter, property)
    {
      ChildSize(ns, i);
      var kept := SweepChild(ns[i], parent, filter, property);
      SweepStep(ns, i, r, kept, parent, filter, property);
      r := r + kept;
      i := i + 1;
    }
    assert ns[|ns|..] == [];
  }

  /** One node met by `walkDecls`: a declaration is tested against its parent's selector; a container is descended into. */
  method SweepChild(child: Node, parent: Option<string>, filter: Filter, property: Property) returns (kept: seq<Node>)
    ensures kept == RemoveNodes([child], true, parent, filter, property)
    decreases SizeOf([child]), 0
  {
    assert [child][0] == child && [child][1..] == [];
    match child
    case Decl(prop, _) =>
      kept := if filter(parent) && Targets(property, prop) then [] else [child];
    case Rule(sel, kids) =>
      ChildrenSmaller([child], 0);
      var k := SweepDecls(kids, Some(sel), filter, property);
      kept := [Rule(sel, k)];
    case AtRule(name, params, kids) =>
      ChildrenSmaller([child], 0);
      var k := SweepDecls(kids, None, filter, property);
      kept := [AtRule(name, params, k)];
    case Comment(_) =>
      kept := [child];
  }

  /**
   * `tree.walkRules(...)`: a loop over the forest `ns`; each rule has its
   * declarations swept and is then walked into, each at-rule is walked into.
   */
  method WalkRules(ns: seq<Node>, filter: Filter, property: Property) returns (r: seq<Node>)
    ensures r == WalkRulesRemove(ns, filter, property)
    decreases SizeOf(ns), 1
  {
    r := [];
    var i := 0;
    while i < |ns|
      invariant 0 <= i <= |ns|
      invariant WalkRulesRemove(ns, filter, property) == r + WalkRulesRemove(ns[i..], filter, property)
    {
      ChildSize(ns, i);
      var visited := WalkRulesChild(ns[i], filter, property);
      WalkRulesStep(ns, i, r, visited, filter, property);
      r := r + [visited];
      i := i + 1;
    }
    assert ns[|ns|..] == [];
  }

  method WalkRulesChild(child: Node, filter: Filter, property: Property) returns (visited: Node)
    ensures visited == WalkRuleNode(child, filter, property)
    decreases SizeOf([child]), 0
  {
    match child
    case Rule(sel, kids) =>
      ChildrenSmaller([child], 0);
      var swept := SweepDecls(kids, Some(sel), filter, property);
      var k := WalkRules(swept, filter, property);
      visited := Rule(sel, k);
    case AtRule(name, params, kids) =>
      ChildrenSmaller([child], 0);
      var k := WalkRules(kids, filter, property);
      visited := AtRule(name, params, k);
    case _ =>
      visited := child;
  }
}

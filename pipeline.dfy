/**
 * `htmlByCss` of src/index.js: the element tree comes from walking one parse
 * of the source; the cleaned stylesheet comes from running the plugin list
 * over another parse. The CSS parser, the nesting flattener and any caller
 * plugins are foreign code and come in as functions.
 */
module HtmlByCss {
  import opened Wrappers
  import opened JsText
  import opened Css
  import opened Markup
  import opened Transformer
  import opened SelectorText
  import opened Walker
  import opened RenamePlugin
  import opened RemovePlugin
  import opened EmptyPlugin

  /** A stylesheet transformation in the plugin list. */
  datatype Plugin =
    | RenameRules(replace: string -> string)
    | RemoveDeclarations(filter: Filter, property: Property)
    | Custom(run: seq<Node> -> seq<Node>)

  /** `DEFAULT_PLUGINS`: strip the multiplier from every selector, then drop `content` outside `:before`/`:after` rules. */
  function DefaultPlugins(): seq<Plugin>
  {
    [RenameRules(StripMultiplier), RemoveDeclarations(NotPseudo, Single("content"))]
  }

  /** The plugin list `htmlByCss` hands to postcss: the defaults, the nesting flattener when `legacy`, then the caller's. */
  function PluginList(legacy: bool, nesting: seq<Node> -> seq<Node>, extra: seq<Plugin>): seq<Plugin>
  {
    DefaultPlugins() + (if legacy then [Custom(nesting)] else []) + extra
  }

  /** What one plugin makes of the stylesheet. */
  function Run(p: Plugin, ns: seq<Node>): seq<Node>
  {
    match p
    case RenameRules(replace) => RenameNodes(ns, replace)
    case RemoveDeclarations(filter, property) => RemoveNodes(ns, false, None, filter, property)
    case Custom(run) => run(ns)
  }

  /** The plugins run one after the other, in list order. */
  function RunAll(ps: seq<Plugin>, ns: seq<Node>): seq<Node>
  {
    if ps == [] then ns else RunAll(ps[1..], Run(ps[0], ns))
  }

  lemma {:induction false} RunAllAppend(ps: seq<Plugin>, qs: seq<Plugin>, ns: seq<Node>)
    ensures RunAll(ps + qs, ns) == RunAll(qs, RunAll(ps, ns))
  {
    if ps == [] {
      assert ps + qs == qs;
    } else {
      assert (ps + qs)[0] == ps[0] && (ps + qs)[1..] == ps[1..] + qs;
      RunAllAppend(ps[1..], qs, Run(ps[0], ns));
    }
  }

  /** The default plugins: the rename with the multiplier strip, then the removal of `content` outside pseudo rules. */
  lemma DefaultsRun(ns: seq<Node>)
    ensures RunAll(DefaultPlugins(), ns)
      == RemoveNodes(RenameNodes(ns, StripMultiplier), false, None, NotPseudo, Single("content"))
  {
    var p := DefaultPlugins();
    var renamed := Run(p[0], ns);
    assert RunAll(p, ns) == RunAll(p[1..], renamed);
    assert p[1..][0] == p[1] && p[1..][1..] == [];
    assert RunAll(p[1..], renamed) == RunAll([], Run(p[1], renamed));
  }

  /**
   * The plugin order: rename, then remove, then the nesting flattener (only
   * when `legacy`), then the caller's plugins, each on what the previous one
   * left.
   */
  lemma PluginOrder(legacy: bool, nesting: seq<Node> -> seq<Node>, extra: seq<Plugin>, ns: seq<Node>)
    ensures var cleaned := RemoveNodes(RenameNodes(ns, StripMultiplier), false, None, NotPseudo, Single("content"));
      RunAll(PluginList(legacy, nesting, extra), ns)
        == RunAll(extra, if legacy then nesting(cleaned) else cleaned)
  {
    var d := DefaultPlugins() + (if legacy then [Custom(nesting)] else []);
    RunAllAppend(d, extra, ns);
    RunAllAppend(DefaultPlugins(), if legacy then [Custom(nesting)] else [], ns);
    DefaultsRun(ns);
    assert [Custom(nesting)][1..] == [];
  }

  /**
   * After the default plugins, a `content` declaration survives under a rule
   * only where its parent's selector (as renamed) is a `:before`/`:after`
   * one; every other declaration stays.
   */
  lemma DefaultsKeepPseudoContent(ns: seq<Node>)
    ensures var renamed := RenameNodes(ns, StripMultiplier);
      var css := RunAll(DefaultPlugins(), ns);
      (forall x :: x in Sites(css, false, None) && x.underRule && x.prop == "content" ==>
        IsPseudoParent(x.parent)) &&
      (forall x :: x in Sites(renamed, false, None) && (!x.underRule || x.prop != "content" || IsPseudoParent(x.parent)) ==>
        x in Sites(css, false, None))
  {
    var renamed := RenameNodes(ns, StripMultiplier);
    var css := RunAll(DefaultPlugins(), ns);
    DefaultsRun(ns);
    assert css == RemoveNodes(renamed, false, None, NotPseudo, Single("content"));
    RemoveSites(renamed, false, None, NotPseudo, Single("content"));
    SurvivorsDropNothing(Sites(renamed, false, None), NotPseudo, Single("content"));
    SurvivorsKeep(Sites(renamed, false, None), NotPseudo, Single("content"));
    forall o: Option<string> ensures NotPseudo(o) <==> !IsPseudoParent(o) {
      PseudoTestsAgree(TestedString(o));
    }
  }

  /** The cleaned stylesheet being built: the postcss root whose children the plugins rewrite in place. */
  class Stylesheet {
    var nodes: seq<Node>

    constructor(parsed: seq<Node>)
      ensures nodes == parsed
    {
      nodes := parsed;
    }

    /** The `rename` plugin. */
    method Rename(replace: string -> string)
      modifies this
      ensures nodes == RenameNodes(old(nodes), replace)
    {
      nodes := RenamePlugin.RenameRules(nodes, replace);
    }

    /** The `remove` plugin, run as walkRules with walkDecls inside each rule. */
    method Remove(filter: Filter, property: Property)
      modifies this
      ensures nodes == RemoveNodes(old(nodes), false, None, filter, property)
    {
      var r := WalkRules(nodes, filter, property);
      WalkRulesIsRemove(nodes, None, filter, property);
      nodes := r;
    }

    /** The `empty` plugin (not among the defaults; a caller may add it). */
    method Empty()
      modifies this
      ensures nodes == PruneNodes(old(nodes))
    {
      nodes := PruneRules(nodes);
    }

    method Apply(p: Plugin)
      modifies this
      ensures nodes == Run(p, old(nodes))
    {
      match p
      case RenameRules(replace) => Rename(replace);
      case RemoveDeclarations(filter, property) => Remove(filter, property);
      case Custom(run) => nodes := run(nodes);
    }

    /** `postcss(plugins).process(...)`: each plugin in turn on the same root. */
    method Process(ps: seq<Plugin>)
      modifies this
      ensures nodes == RunAll(ps, old(nodes))
    {
      var i := 0;
      while i < |ps|
        invariant 0 <= i <= |ps|
        invariant RunAll(ps, old(nodes)) == RunAll(ps[i..], nodes)
      {
        assert ps[i..][0] == ps[i] && ps[i..][1..] == ps[i + 1..];
        Apply(ps[i]);
        i := i + 1;
      }
      assert ps[i..] == [];
    }
  }

  /**
   * `htmlByCss(source, {legacy, plugins})`: the element tree is the walk of
   * one parse, the stylesheet the plugin list run over a fresh parse, so
   * what the walk removes never reaches the CSS.
   */
  method HtmlByCss(source: string, parseCss: string -> seq<Node>, parse: SelectorParser,
                   legacy: bool, nesting: seq<Node> -> seq<Node>, extra: seq<Plugin>)
    returns (html: seq<Html>, css: seq<Node>)
    ensures html == WalkNodes(parseCss(source), None, parse).results
    ensures css == RunAll(PluginList(legacy, nesting, extra), parseCss(source))
  {
    var parsed := parseCss(source);
    var results, _ := Walk(parsed, None, parse);
    html := results;
    var plugins := DefaultPlugins();
    if legacy {
      plugins := plugins + [Custom(nesting)];
    }
    var sheet := new Stylesheet(parseCss(source));
    sheet.Process(plugins + extra);
    css := sheet.nodes;
  }
}

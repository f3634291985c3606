# html-by-css, modelled in Dafny

html-by-css turns nested CSS into two outputs. One is an HTML element tree: every rule becomes an
element whose tag name and attributes come from its selector. The emmet-style `*n` suffix repeats a
rule's element n times. A `content` declaration becomes a text node. The other output is a cleaned
stylesheet, produced by a list of postcss plugins.

This project models the core of that program and proves properties of the model:

- **The selector-to-element translator** (`src/transformer.js`): module `Transformer`.
  - `getTagName`: the first tag; otherwise, recursively, the first pseudo-class argument; otherwise "div".
  - `getAttributes`: a key-merging fold over the top-level and pseudo-derived attributes.
  - `transformer`: it removes only the first `&`, then flattens the comma alternatives.
- **The multiplier string functions** (`src/index.js`): module `SelectorText`, with JS string helpers in `JsText`.
  - `parseMultiplier`: the unanchored `[^*]+\*(\d+)`.
  - The default rename callback: the anchored `\*\d+$`.
  - The two pseudo tests, `/:before|:after/` and `/(.*::?)(after|before)/`.
- **The rule-tree walker** (`walk` in `src/index.js`): module `Walker`.
  - The walk emits elements and text nodes.
  - It deletes lifted `content` declarations from the tree as it goes.
  - The reference function `WalkNodes` returns both the emitted nodes and the tree it leaves behind.
  - The methods `Walk`, `VisitChild` and `Repeat` follow the source's loops. They are proved equal to `WalkNodes`.
- **The cleanup plugins**:
  - `rename` (`src/rename.js`): module `RenamePlugin`.
  - `remove` (`src/remove.js`): module `RemovePlugin`.
  - `empty` with its upward `ancestors` cascade (`src/empty.js`): module `EmptyPlugin`.
  - Each plugin has a net-effect function and its frame properties.
  - For `rename` and `remove`, a method follows the source's `walkRules`/`walkDecls` loops and is proved equal to the net effect.
  - For `empty`, `ancestors` is modelled step by step and each cascade is proved sound against the net effect. The loop
    method computes the net effect children-first rather than replaying the `walkRules` visits (see Left out).
- **`htmlByCss` and the plugin order** (`src/index.js`): module `HtmlByCss`.
  - The class `Stylesheet` holds the postcss root's children, and the plugins reassign them.

The data the foreign libraries produce is modelled by value datatypes:
- `Css.Node` is the postcss tree: rules, at-rules, declarations and comments.
- `Markup.Html` is the himalaya element tree.
- `Transformer.Component` is the css-what selector components.

The parsers themselves are function parameters.

Behaviour worth noting. The program's own comments describe the multiplier as emmet's trailing `*n`: "Removing the emmet
syntax" (src/index.js:9) and `@example 'li.item*5' => 5` (src/index.js:18). The code does more than that:

- The multiplier is found anywhere in a selector, not only at its end. `li*2 a` yields two elements
  but keeps its selector in the CSS. See `UnanchoredMultiplier`.
- Stripping the multiplier is not idempotent: `a*1*2` becomes `a*1`, and only a second strip gives `a`.
  See `StripNotIdempotent`.
- The repeated copies of a rule are not identical. The first copy lifts the `content` text and
  deletes it from the tree, so the later copies contain no text at any depth. See
  `CopiesRestIsUnlift`.

## Model

| member | source | states |
|---|---|---|
| Transformer.GetTagName | src/transformer.js:3-11 | the first tag's name; with no tag, the tag name of the first pseudo-class's argument; with neither, "div" |
| Transformer.GetAttributes | src/transformer.js:13-27 | the merge of the top-level attributes followed by the attributes of each pseudo-class argument |
| Transformer.MergeAttributes | src/transformer.js:21-26 | the `reduce` over the attribute list from an empty accumulator, one `Absorb` per entry |
| Transformer.Absorb | src/transformer.js:22-25 | one `reduce` step: append the entry when its key is new, else combine the values of the first entry with that key |
| Transformer.FirstTag | src/transformer.js:5 | the index of the first tag component, or the length when there is none; no earlier component is a tag |
| Transformer.FirstPseudo | src/transformer.js:7 | the index of the first pseudo-class component, or the length when there is none |
| Transformer.TagNameSpec | src/transformer.js:3-11 | the tag name is the first tag's name; with no tag it is the tag name of the first pseudo-class's argument; with neither it is "div" |
| Transformer.TagNameOrigin | src/transformer.js:3-11 | the tag name is "div" or a tag name that occurs somewhere in the selector, through pseudo arguments |
| Transformer.TagNameIgnoresLaterComponents | src/transformer.js:5-8 | components after the first tag never matter; after a first pseudo-class they matter only if they hold a tag |
| Transformer.TagNamesContains | src/transformer.js:5-8 | every tag, and every tag in a pseudo argument, is among the selector's tag names |
| Transformer.FindKey | src/transformer.js:22 | `acc.find` by key: the first entry with that key, or the length exactly when no entry has it |
| Transformer.MergeDistinct | src/transformer.js:21-26 | the merged attribute list has pairwise distinct keys |
| Transformer.MergeKeySet | src/transformer.js:21-26 | a key is in the merged list iff it is in the input list: none invented, none dropped |
| Transformer.MergeKeyOrder | src/transformer.js:21-26 | merged keys appear in the order of their first occurrence in the input |
| Transformer.MergeValueOfKey | src/transformer.js:23-24 | the merged value of a key is its per-key merge: the first value, then each later one joined by a space when non-empty and trimmed |
| Transformer.MergeValues | src/transformer.js:23-24 | every merged entry carries its key's per-key merge, so a key given once keeps its value verbatim |
| Transformer.Find | src/transformer.js:22 | the search stops at the first entry holding the key, or past the end when no entry does |
| Transformer.Accumulate | src/transformer.js:22-25 | one `reduce` step: a known key gets its joined, trimmed value in place, a new key is appended |
| Transformer.AbsorbKeySet | src/transformer.js:22-25 | one `reduce` step adds the incoming key and keeps every key already there |
| Transformer.Merge | src/transformer.js:21-26 | the `reduce` loop, with its in-place update of the found entry, computes the merge fold and leaves distinct keys |
| Transformer.ListKeys | src/transformer.js:15-20 | the top-level plus pseudo-derived entries hold exactly the attribute names found at every depth |
| Transformer.AttributeKeys | src/transformer.js:13-27 | a key is in `getAttributes`' result iff it names an attribute somewhere in the selector |
| Transformer.PrefixKeysFirst | src/transformer.js:21 | after merging a prefix list with a rest, every key from the prefix precedes every key only the rest supplies |
| Transformer.GetAttributesSpec | src/transformer.js:13-27 | distinct keys; key set equals the attribute names at every depth; top-level attribute keys precede pseudo-only ones |
| Transformer.RemoveFirstAmp | src/transformer.js:30 | `selector.replace('&', '')`: unchanged without `&`, otherwise exactly the first `&` is removed |
| Transformer.Transform | src/transformer.js:29-40 | an element with no children, tag name "div" or from the selector, distinct attribute keys equal to the selector's attribute names |
| JsText.TrimStart | src/transformer.js:24 | drops exactly the leading JS white space and line terminators |
| JsText.TrimEnd | src/transformer.js:24 | drops exactly the trailing JS white space and line terminators |
| JsText.Trim | src/transformer.js:24 | the result is the input with white-space padding removed and neither starts nor ends with white space |
| SelectorText.DigitRunEnd | src/index.js:23 | the greedy `\d+`: the end of the maximal digit run starting at a position |
| SelectorText.FirstQualifyingStar | src/index.js:23 | the first `*` that follows a non-`*` character and is followed by a digit |
| SelectorText.ParseMultiplier | src/index.js:22-25 | 1 when no `*` follows a non-`*` character and precedes a digit |
| SelectorText.MultiplierIsLeftmostMatch | src/index.js:22-25 | no regex match gives 1; otherwise the result is the decimal value of the digit group of the leftmost match |
| SelectorText.UnanchoredMultiplier | src/index.js:23 | a `*digits` in the middle counts for the multiplier while the rename leaves such a selector unchanged |
| SelectorText.LeadingStarMultiplier | src/index.js:10-24 | `*5` has multiplier 1 (no non-`*` before it) but is stripped to the empty string |
| SelectorText.TrailingDigitsStart | src/index.js:10 | where the digit run at the end of the string starts |
| SelectorText.StripMultiplier | src/index.js:10 | a trailing `*` plus digits is cut off; a selector not ending that way comes back unchanged |
| SelectorText.StripNeedsTrailingDigit | src/index.js:10 | a selector whose last character is not a digit comes back from the rename unchanged |
| SelectorText.StripNotIdempotent | src/index.js:10 | `p*d1*d2` strips to `p*d1`, and a second strip gives `p` |
| SelectorText.StripStableIff | src/index.js:10 | a second strip changes nothing iff the first left no trailing multiplier |
| SelectorText.WalkerPseudo | src/index.js:38 | `/:before\|:after/`: the selector contains `:before` or `:after` |
| SelectorText.CleanupPseudo | src/index.js:12 | `/(.*::?)(after\|before)/`: some `:` or `::` followed by `after` or `before`, with no line break before it in the match |
| SelectorText.WalkerToCleanup | src/index.js:12 | an occurrence of `:before` or `:after` satisfies the cleanup regex |
| SelectorText.CleanupToWalker | src/index.js:38 | any cleanup-regex match contains `:before` or `:after` |
| SelectorText.PseudoTestsAgree | src/index.js:38 | the walker's `/:before\|:after/` (line 38) and the cleanup `/(.*::?)(after\|before)/` (line 12) accept the same strings |
| SelectorText.ContainsBeforeTail | src/index.js:10 | a pattern free of `*` and digits occurs iff it occurs before a tail of `*` and digits |
| SelectorText.StripKeepsPseudo | src/index.js:10-12 | the rename callback never changes whether a selector counts as `:before`/`:after` for either test |
| Walker.WalkNodes | src/index.js:34-60 | `walk` over a forest: the emitted elements and text nodes, and the tree it leaves behind |
| Walker.Visit | src/index.js:35-57 | one child: the text of a lifted `content` declaration, or the copies of a rule with a selector, or nothing |
| Walker.Copies | src/index.js:48-55 | the `Array.from` of n copies, each walking the children as the previous copies left them |
| Walker.Unlift | src/index.js:36-55 | the tree with the `content` declarations outside `:before`/`:after` parents removed, descending only into rules with a selector and a multiplier of at least one, as the walk does |
| Walker.Walk | src/index.js:34-60 | the loop over a node's children returns exactly the reference walk: the emitted nodes and the tree left behind |
| Walker.VisitChild | src/index.js:35-56 | one child: a lifted `content` declaration becomes text and is dropped, a rule with a selector is repeated, anything else stays |
| Walker.Repeat | src/index.js:48-55 | the `Array.from` loop: each copy is a fresh element that walks the children as the previous copies left them, and only if there are any |
| Walker.UnliftIdempotent | src/index.js:44 | removing the lifted declarations twice removes nothing more |
| Walker.WalkRestIsUnlift | src/index.js:36-45 | the walk leaves exactly the tree without the `content` declarations it reached outside `:before`/`:after` rules; a tree with none left yields no text |
| Walker.VisitRestIsUnlift | src/index.js:36-56 | the same for a single child |
| Walker.CopiesRestIsUnlift | src/index.js:44-55 | with n = 0 the subtree is untouched, else the first copy strips the lifted text; copies 2..n contain no text at any depth |
| Walker.WalkTwice | src/index.js:44 | walking what a walk left behind changes nothing and emits no text |
| Walker.CopiesShape | src/index.js:48-51 | a rule with multiplier n yields exactly n elements, each with the translator's tag name and attributes |
| Walker.WalkTopLevel | src/index.js:36-56 | at each level one text node per lifted `content` value, in order, and as many elements as the child rules' multipliers add up to |
| RenamePlugin.RenameNodes | src/rename.js:13-17 | the tree with every rule's selector replaced at every depth |
| RenamePlugin.MapSelectors | src/rename.js:15 | each selector replaced, position by position |
| RenamePlugin.RenameSelectors | src/rename.js:14-16 | after the pass the selectors, in document order, are `replace` of the old ones |
| RenamePlugin.RenameKeepsShape | src/rename.js:15 | declarations, at-rules, node count and order are untouched |
| RenamePlugin.ShapeAndSelectorsDetermine | src/rename.js:15 | a tree is determined by its shape and its selectors, so those two lemmas say all the pass does |
| RenamePlugin.RenameCongruent | src/rename.js:15 | each rule's new selector depends only on its own old selector |
| RenamePlugin.RenameTwice | src/rename.js:15 | two passes equal one pass with the composed replacement |
| RenamePlugin.RenameIdentity | src/rename.js:10 | the default identity `replace`, or any fixing every selector present, leaves the tree unchanged |
| RenamePlugin.RenameIdempotentIff | src/rename.js:15 | two passes equal one iff `replace` is idempotent on every selector present |
| RenamePlugin.RenameRules | src/rename.js:13-17 | the walkRules loop returns exactly the net-effect function |
| RenamePlugin.RenameChild | src/rename.js:15 | one node: a rule gets its new selector; every container is descended into |
| RemovePlugin.RemoveKeepsSkeleton | src/remove.js:16-21 | rules, selectors, at-rules, comments and their order are unchanged |
| RemovePlugin.RemoveNodes | src/remove.js:15-23 | the tree with each declaration under a rule removed when the filter accepts its parent's selector and its property is targeted |
| RemovePlugin.WalkRulesRemove | src/remove.js:16-22 | `walkRules` in pre-order: each rule sweeps its subtree with `walkDecls`, then its children are visited |
| RemovePlugin.RemoveDeletesOnlyDecls | src/remove.js:16-21 | the result is the input with only declarations deleted: every other node keeps its place, containers match one-to-one with the same headers |
| RemovePlugin.RemoveSites | src/remove.js:18-20 | the declarations left are those not dropped, in order: dropped iff under a rule, the filter accepts the parent selector and the property is targeted |
| RemovePlugin.RemoveNothing | src/remove.js:11-12 | a filter rejecting everything or no property removes nothing |
| RemovePlugin.RemoveDefaults | src/remove.js:11-12 | the default filter and property remove nothing |
| RemovePlugin.RemoveOutsideRules | src/remove.js:16-17 | declarations at the root or in at-rules outside every rule are never removed |
| RemovePlugin.SurvivorsKeep | src/remove.js:18-20 | every declaration not dropped survives |
| RemovePlugin.SurvivorsDropNothing | src/remove.js:18-20 | every survivor is an input declaration not dropped |
| RemovePlugin.RemoveIdempotent | src/remove.js:17-20 | applying the plugin twice equals applying it once |
| RemovePlugin.SingleIsList | src/remove.js:19 | a single property name means the same as a one-element list |
| RemovePlugin.WalkRulesOnRemoved | src/remove.js:16-21 | the rule walk leaves an already cleaned forest as it is |
| RemovePlugin.WalkRulesIsRemove | src/remove.js:16-21 | visiting a declaration once per ancestor rule equals deciding it once from its own parent selector |
| RemovePlugin.SweepDecls | src/remove.js:17-21 | the walkDecls loop inside a rule returns the net effect for a forest under a rule |
| RemovePlugin.SweepChild | src/remove.js:18-20 | one node met by walkDecls |
| RemovePlugin.WalkRules | src/remove.js:16-22 | the walkRules loop (sweep each rule, then walk into it) returns the rule-walk function |
| RemovePlugin.WalkRulesChild | src/remove.js:16-21 | one node met by walkRules |
| EmptyPlugin.PruneNodes | src/empty.js:6-8 | the net effect of the pass: a rule with no surviving children goes, an at-rule that had children and kept none goes |
| EmptyPlugin.PruneOne | src/empty.js:16-21 | one node: a rule goes iff none of its children survive, an at-rule goes iff it had children and none survive, a leaf stays |
| EmptyPlugin.PruneLeavesNoEmptyRules | src/empty.js:6-8 | after the pass no rule without child nodes remains reachable from the root |
| EmptyPlugin.PruneKeepsNonEmpty | src/empty.js:18 | a tree with no childless rule at any depth comes back unchanged |
| EmptyPlugin.PruneRuleInPlace | src/empty.js:16-21 | a rule anywhere among its siblings is kept, with its pruned children, iff some child survives; its siblings prune as without it |
| EmptyPlugin.PruneAtRuleInPlace | src/empty.js:16-21 | an at-rule that starts childless is kept as it is; one with children is kept, pruned, iff some child survives |
| EmptyPlugin.PruneInPlace | src/empty.js:6-8 | a node prunes independently of its siblings: what is left of it sits between what is left of each side |
| EmptyPlugin.PruneFixedIff | src/empty.js:6-8 | the pass changes a tree iff some rule in it has no child nodes |
| EmptyPlugin.PruneIdempotent | src/empty.js:6-8 | a second pass removes nothing more |
| EmptyPlugin.PruneKeepsLeaves | src/empty.js:16-21 | declarations and comments are never removed and keep their order |
| EmptyPlugin.Plug | src/empty.js:16-21 | the stylesheet rebuilt from a path of parent links with the given nodes in place of the child |
| EmptyPlugin.Ancestors | src/empty.js:16-21 | `ancestors`: a node with children stays; a childless one is detached and its parent gets the same check, up to the root |
| EmptyPlugin.Rebuild | src/empty.js:17 | the parent a frame stands for is a container holding the given children |
| EmptyPlugin.PlugCongruent | src/empty.js:20 | nodes that prune alike can be swapped anywhere in the tree |
| EmptyPlugin.DropPruned | src/empty.js:19 | detaching a node the pass removes entirely does not change what its siblings prune to |
| EmptyPlugin.AncestorsSound | src/empty.js:16-21 | the upward cascade from a childless node removes only what the whole pass removes |
| EmptyPlugin.AncestorsOnEmptyRule | src/empty.js:7 | `ancestors` on a childless rule, as the pass calls it, moves the tree towards the pass's result |
| EmptyPlugin.AncestorsEffect | src/empty.js:16-21 | a node with children is left in place; a childless one is detached, shrinking the tree; no declaration or comment is removed |
| EmptyPlugin.PruneRules | src/empty.js:6-8 | the loop over a forest returns exactly the pass's net effect |
| EmptyPlugin.PruneChild | src/empty.js:18-20 | one node: a container whose pruned children are empty is detached (an at-rule only if it had children) |
| HtmlByCss.DefaultPlugins | src/index.js:8-13 | the multiplier-stripping rename, then the removal of `content` outside `:before`/`:after` rules |
| HtmlByCss.PluginList | src/index.js:77-84 | the defaults, then the nesting flattener when `legacy`, then the caller's plugins |
| HtmlByCss.RunAll | src/index.js:84 | the plugins applied one after another in list order |
| HtmlByCss.DefaultsRun | src/index.js:8-13 | the defaults rename with the multiplier strip, then remove `content` outside `:before`/`:after` rules |
| HtmlByCss.PluginOrder | src/index.js:77-84 | rename, then remove, then the nesting flattener only when `legacy`, then the caller's plugins |
| HtmlByCss.DefaultsKeepPseudoContent | src/index.js:8-13 | after the defaults a `content` declaration under a rule survives only in a `:before`/`:after` rule, and every other declaration survives |
| HtmlByCss.Stylesheet.constructor | src/index.js:82 | the root holds the parsed nodes |
| HtmlByCss.Stylesheet.Rename | src/rename.js:13-17 | the root's nodes become their renamed tree |
| HtmlByCss.Stylesheet.Remove | src/remove.js:15-23 | the root's nodes become the net effect of the remove plugin |
| HtmlByCss.Stylesheet.Empty | src/empty.js:6-8 | the root's nodes become the pruned tree |
| HtmlByCss.Stylesheet.Apply | src/index.js:84 | one plugin applied to the root |
| HtmlByCss.Stylesheet.Process | src/index.js:84 | the plugins run over the root in list order |
| HtmlByCss.HtmlByCss | src/index.js:71-86 | the HTML is the walk of one parse; the CSS is the plugin list run over a fresh parse, untouched by the walk |

## Left out

- The postcss parser and stringifier, the css-what selector parser, himalaya's `stringify`, and
  `postcss-nesting` are foreign libraries.
  - Each parser is a function parameter (`parseCss`, `parse`).
  - The nesting flattener is the parameter `nesting`.
  - The model's outputs are the element tree and the node tree before serialisation.
- HtmlByCss.PluginOrder: the order modelled is the order of the list built at src/index.js:77-84. postcss's own
  plugin scheduling is not modelled. postcss 8 runs function plugins in list order but visitor-style plugins
  (as recent `postcss-nesting` versions are) in a later pass, so with `legacy` the flattener may run at another point.
- Caller-supplied plugins are opaque functions on the node tree (`Plugin.Custom`). The model does
  not say what they do.
- postcss nodes are objects with parent links that plugins mutate in place.
  - The model works on values: each operation returns the new forest.
  - The `Stylesheet` class holds the root's children, and its methods reassign them.
  - Aliasing between the walk's tree and the plugins' tree cannot arise here, because the program
    parses the source twice.
- postcss's `each`/`walkRules`/`walkDecls` iteration machinery is not modelled. In particular, the
  index adjustment that keeps iteration correct while nodes are removed is left out. The model's
  loops run over the forest as it stands and rebuild it.
- EmptyPlugin.PruneRules: computes the pass's net effect children-first rather than replaying
  `walkRules`' pre-order visits with an upward cascade after each.
  - `ancestors` itself is modelled step by step: `Ancestors` works on a path of parent frames.
  - `AncestorsSound` shows that each cascade only removes what the net effect removes.
  - There is no proof that the full sequence of cascades reaches exactly that net effect.
- SelectorText.ParseMultiplier: returns an unbounded natural number. The source's `Number(...)`
  gives a floating-point value, and `Array.from` throws a RangeError for a length above
  2^32 - 1. The model covers neither.
- A selector the css-what parser rejects throws in the source. The model's `parse` is total.
- `RegExp` and `String.prototype.replace` are used only through the three patterns above, written
  out by hand. The ignored second argument of `selector.match` is not modelled.
- The `filter` and `property` options of `remove` are modelled as follows:
  - `filter` is reduced to the truthiness of its result (`Filter`).
  - `property` is `null`, one name, or a list of names.
  - Other values (for example, arrays holding non-strings) are left out.
- `dist/index.cjs` is a generated copy of `src/` and is not modelled separately. The test file is
  not modelled.

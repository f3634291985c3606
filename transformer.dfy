/**
 * The selector-to-element translator: one rule selector becomes one element
 * descriptor whose tag name and attributes are read off the selector's
 * parsed components.
 */
module Transformer {
  import opened JsText
  import opened Markup

  /**
   * One component of a parsed compound selector, as the css-what parser
   * reports it. Class and id selectors arrive as attribute components
   * (`class`, `id`). A pseudo-class carries its argument selector already
   * flattened over its comma alternatives; an argument that is null or a
   * plain string (`:nth-child(2n)`) is the empty sequence. Every other
   * component type (combinators, `*`, pseudo-elements, ...) is `Other`.
   */
  datatype Component =
    | Tag(name: string)
    | Attr(name: string, value: string)
    | Pseudo(name: string, arg: seq<Component>)
    | Other

  /** The css-what parser: a selector string to its comma alternatives. */
  type SelectorParser = string -> seq<seq<Component>>

  /** `.flat()` over the comma alternatives. */
  function Flatten(alts: seq<seq<Component>>): seq<Component>
  {
    if alts == [] then [] else alts[0] + Flatten(alts[1..])
  }

  predicate HasTag(cs: seq<Component>)
  {
    exists i :: 0 <= i < |cs| && cs[i].Tag?
  }

  predicate HasPseudo(cs: seq<Component>)
  {
    exists i :: 0 <= i < |cs| && cs[i].Pseudo?
  }

  /** `tree.find(({type}) => type === 'tag')`, as an index. */
  function FirstTag(cs: seq<Component>): (r: nat)
    ensures r <= |cs|
    ensures forall k :: 0 <= k < r ==> !cs[k].Tag?
    ensures r < |cs| ==> cs[r].Tag?
    ensures r == |cs| <==> !HasTag(cs)
  {
    if cs == [] || cs[0].Tag? then 0 else 1 + FirstTag(cs[1..])
  }

  /** `tree.find(({type}) => type === 'pseudo')`, as an index. */
  function FirstPseudo(cs: seq<Component>): (r: nat)
    ensures r <= |cs|
    ensures forall k :: 0 <= k < r ==> !cs[k].Pseudo?
    ensures r < |cs| ==> cs[r].Pseudo?
    ensures r == |cs| <==> !HasPseudo(cs)
  {
    if cs == [] || cs[0].Pseudo? then 0 else 1 + FirstPseudo(cs[1..])
  }

  /**
   * `getTagName`: the name of the first tag component; failing that, the tag
   * name of the first pseudo-class's argument; failing that, "div".
   */
  function GetTagName(cs: seq<Component>): string
  {
    var t := FirstTag(cs);
    if t < |cs| then cs[t].name
    else
      var p := FirstPseudo(cs);
      if p < |cs| then GetTagName(cs[p].arg) else "div"
  }

  /** The tag names at every depth of a component sequence, through all pseudo arguments. */
  function TagNames(cs: seq<Component>): set<string>
  {
    if cs == [] then {}
    else
      (match cs[0]
       case Tag(n) => {n}
       case Pseudo(_, a) => TagNames(a)
       case _ => {})
      + TagNames(cs[1..])
  }

  lemma {:induction false} TagNamesContains(cs: seq<Component>, i: int)
    requires 0 <= i < |cs|
    ensures cs[i].Tag? ==> cs[i].name in TagNames(cs)
    ensures cs[i].Pseudo? ==> TagNames(cs[i].arg) <= TagNames(cs)
  {
    if i > 0 {
      TagNamesContains(cs[1..], i - 1);
    }
  }

  /** The tag name is never invented: it is "div" or the name of a tag component somewhere in the selector. */
  lemma {:induction false} TagNameOrigin(cs: seq<Component>)
    ensures GetTagName(cs) == "div" || GetTagName(cs) in TagNames(cs)
  {
    var t := FirstTag(cs);
    if t < |cs| {
      TagNamesContains(cs, t);
    } else {
      var p := FirstPseudo(cs);
      if p < |cs| {
        TagNameOrigin(cs[p].arg);
        TagNamesContains(cs, p);
      }
    }
  }

  /**
   * The tag name is the name of the first tag component; with no tag it is
   * the tag name of the first pseudo-class's argument, later pseudo-classes
   * unconsulted; with neither it is "div".
   */
  lemma TagNameSpec(cs: seq<Component>)
    ensures forall i :: 0 <= i < |cs| && cs[i].Tag? && (forall k :: 0 <= k < i ==> !cs[k].Tag?) ==>
      GetTagName(cs) == cs[i].name
    ensures forall i :: !HasTag(cs) && 0 <= i < |cs| && cs[i].Pseudo? && (forall k :: 0 <= k < i ==> !cs[k].Pseudo?) ==>
      GetTagName(cs) == GetTagName(cs[i].arg)
    ensures !HasTag(cs) && !HasPseudo(cs) ==> GetTagName(cs) == "div"
  {
    forall i | 0 <= i < |cs| && cs[i].Tag? && (forall k :: 0 <= k < i ==> !cs[k].Tag?)
      ensures FirstTag(cs) == i
    {
      assert HasTag(cs);
    }
    forall i | !HasTag(cs) && 0 <= i < |cs| && cs[i].Pseudo? && (forall k :: 0 <= k < i ==> !cs[k].Pseudo?)
      ensures FirstPseudo(cs) == i
    {
      assert HasPseudo(cs);
    }
  }

  /**
   * Only the first tag, or else the first pseudo-class, is ever consulted:
   * appending components leaves the tag name alone once the prefix has a
   * tag, and also once it has a pseudo-class and the appended part has no tag.
   */
  lemma TagNameIgnoresLaterComponents(cs: seq<Component>, rest: seq<Component>)
    ensures HasTag(cs) ==> GetTagName(cs + rest) == GetTagName(cs)
    ensures HasPseudo(cs) && !HasTag(rest) ==> GetTagName(cs + rest) == GetTagName(cs)
  {
    var all := cs + rest;
    if HasTag(cs) {
      var t := FirstTag(cs);
      assert all[t].Tag?;
      assert FirstTag(all) == t by {
        forall k | 0 <= k < t ensures !all[k].Tag? {
          assert all[k] == cs[k];
        }
      }
    } else if HasPseudo(cs) && !HasTag(rest) {
      assert !HasTag(all) by {
        forall k | 0 <= k < |all| ensures !all[k].Tag? {
          if k < |cs| {
            assert all[k] == cs[k];
          } else {
            assert all[k] == rest[k - |cs|];
          }
        }
      }
      var p := FirstPseudo(cs);
      assert all[p].Pseudo?;
      assert FirstPseudo(all) == p by {
        forall k | 0 <= k < p ensures !all[k].Pseudo? {
          assert all[k] == cs[k];
        }
      }
    }
  }

  // ---------------------------------------------------------------------
  // Attributes
  // ---------------------------------------------------------------------

  /** Some entry of `attrs` has key `key`. */
  predicate HasKey(attrs: seq<Attribute>, key: string)
  {
    exists i :: 0 <= i < |attrs| && attrs[i].key == key
  }

  /** The values recorded for `key`, in order. */
  function ValuesOf(attrs: seq<Attribute>, key: string): seq<string>
  {
    if attrs == [] then []
    else
      var last := attrs[|attrs| - 1];
      ValuesOf(attrs[..|attrs| - 1], key) + (if last.key == key then [last.value] else [])
  }

  /**
   * `acc.find((attr) => attr.key === key)`, as an index: the first entry with
   * that key, or |acc| when there is none.
   */
  function FindKey(acc: seq<Attribute>, key: string): (r: nat)
    ensures r <= |acc|
    ensures forall k :: 0 <= k < r ==> acc[k].key != key
    ensures r < |acc| ==> acc[r].key == key
    ensures r == |acc| <==> !HasKey(acc, key)
  {
    if acc == [] || acc[0].key == key then 0 else 1 + FindKey(acc[1..], key)
  }

  /** The value a repeated key ends up with: the two values joined, then trimmed. */
  function CombineValues(current: string, incoming: string): string
  {
    Trim(JoinNonEmpty(current, incoming))
  }

  /** One step of the `reduce`: a new key is appended, a known key has its value combined in place. */
  function Absorb(acc: seq<Attribute>, a: Attribute): seq<Attribute>
  {
    var i := FindKey(acc, a.key);
    if i == |acc| then acc + [a]
    else acc[i := Attribute(acc[i].key, CombineValues(acc[i].value, a.value))]
  }

  /** The key-merging `reduce` of `getAttributes`, a left fold over the list. */
  function MergeAttributes(list: seq<Attribute>): seq<Attribute>
  {
    if list == [] then [] else Absorb(MergeAttributes(list[..|list| - 1]), list[|list| - 1])
  }

  /** A per-key reference definition of the merged value: the first value, then each later one combined in. */
  function MergedValue(vs: seq<string>): string
    requires vs != []
  {
    if |vs| == 1 then vs[0] else CombineValues(MergedValue(vs[..|vs| - 1]), vs[|vs| - 1])
  }

  predicate DistinctKeys(attrs: seq<Attribute>)
  {
    forall i, j :: 0 <= i < j < |attrs| ==> attrs[i].key != attrs[j].key
  }

  /** Where a key first occurs is not disturbed by adding an entry at the end. */
  lemma FindKeySnoc(list: seq<Attribute>, key: string)
    requires list != []
    ensures HasKey(list[..|list| - 1], key) ==> FindKey(list, key) == FindKey(list[..|list| - 1], key) < |list| - 1
    ensures !HasKey(list[..|list| - 1], key) ==> FindKey(list, key) >= |list| - 1
  {
    var init := list[..|list| - 1];
    var f, g := FindKey(list, key), FindKey(init, key);
    assert forall k :: 0 <= k < |init| ==> init[k] == list[k];
    if g < |init| {
      assert list[g].key == key;
      assert f <= g;
      assert f < |init| ==> init[f].key == key;
    }
  }

  /** An index with no earlier entry of that key, at an entry of that key or at the end, is where `find` stops. */
  lemma FindKeyAt(acc: seq<Attribute>, key: string, i: int)
    requires 0 <= i <= |acc| && (i == |acc| || acc[i].key == key)
    requires forall k :: 0 <= k < i ==> acc[k].key != key
    ensures FindKey(acc, key) == i
  {
  }

  lemma HasKeySnoc(list: seq<Attribute>, key: string)
    requires list != []
    ensures HasKey(list, key) <==> HasKey(list[..|list| - 1], key) || list[|list| - 1].key == key
  {
    var init := list[..|list| - 1];
    if HasKey(init, key) {
      var i :| 0 <= i < |init| && init[i].key == key;
      assert list[i].key == key;
    }
    if HasKey(list, key) && list[|list| - 1].key != key {
      var i :| 0 <= i < |list| && list[i].key == key;
      assert init[i].key == key;
    }
  }

  lemma {:induction false} ValuesNonEmptyKey(list: seq<Attribute>, key: string)
    requires ValuesOf(list, key) != []
    ensures HasKey(list, key)
  {
    HasKeySnoc(list, key);
    if list[|list| - 1].key != key {
      ValuesNonEmptyKey(list[..|list| - 1], key);
    }
  }

  /** The merge keeps one entry per key. */
  lemma {:induction false} MergeDistinct(list: seq<Attribute>)
    ensures DistinctKeys(MergeAttributes(list))
  {
    if list != [] {
      MergeDistinct(list[..|list| - 1]);
    }
  }

  /** No key is invented and none is dropped. */
  lemma {:induction false} MergeKeySet(list: seq<Attribute>, key: string)
    ensures HasKey(MergeAttributes(list), key) <==> HasKey(list, key)
  {
    if list != [] {
      var init := list[..|list| - 1];
      MergeKeySet(init, key);
      HasKeySnoc(list, key);
      AbsorbKeySet(MergeAttributes(init), list[|list| - 1], key);
    }
  }

  /** One step of the merge adds the incoming key and keeps all others. */
  lemma AbsorbKeySet(acc: seq<Attribute>, a: Attribute, key: string)
    ensures HasKey(Absorb(acc, a), key) <==> HasKey(acc, key) || a.key == key
  {
    var r := Absorb(acc, a);
    var idx := FindKey(acc, a.key);
    if HasKey(r, key) {
      var i :| 0 <= i < |r| && r[i].key == key;
      if i < |acc| {
        assert acc[i].key == key;
      }
    }
    if HasKey(acc, key) {
      var i :| 0 <= i < |acc| && acc[i].key == key;
      assert r[i].key == key;
    }
    if a.key == key {
      if idx == |acc| {
        assert r[|acc|].key == key;
      } else {
        assert r[idx].key == key;
      }
    }
  }

  /** Keys appear in the order in which they first occur in the list. */
  lemma {:induction false} MergeKeyOrder(list: seq<Attribute>)
    ensures forall i, j :: 0 <= i < j < |MergeAttributes(list)| ==>
      FindKey(list, MergeAttributes(list)[i].key) < FindKey(list, MergeAttributes(list)[j].key)
  {
    if list != [] {
      var init := list[..|list| - 1];
      var a := list[|list| - 1];
      var acc := MergeAttributes(init);
      var r := MergeAttributes(list);
      MergeKeyOrder(init);
      forall i | 0 <= i < |acc|
        ensures FindKey(list, acc[i].key) == FindKey(init, acc[i].key) < |init|
      {
        assert HasKey(acc, acc[i].key);
        MergeKeySet(init, acc[i].key);
        FindKeySnoc(list, acc[i].key);
      }
      if FindKey(acc, a.key) == |acc| {
        MergeKeySet(init, a.key);
        FindKeySnoc(list, a.key);
      }
    }
  }

  /** The merged entry for a key given in the list carries the per-key merge of its values. */
  lemma {:induction false} MergeValueOfKey(list: seq<Attribute>, key: string)
    requires HasKey(list, key)
    ensures ValuesOf(list, key) != []
    ensures FindKey(MergeAttributes(list), key) < |MergeAttributes(list)|
    ensures MergeAttributes(list)[FindKey(MergeAttributes(list), key)].value == MergedValue(ValuesOf(list, key))
    decreases |list|, 1
  {
    var init := list[..|list| - 1];
    var a := list[|list| - 1];
    HasKeySnoc(list, key);
    if a.key != key {
      MergeValueOfOther(list, key);
    } else if FindKey(MergeAttributes(init), key) == |MergeAttributes(init)| {
      MergeValueOfNew(list, key);
    } else {
      MergeValueOfKnown(list, key);
    }
  }

  /** Merging one more entry keeps the keys already there, in place. */
  lemma MergeSnocKeys(list: seq<Attribute>)
    requires list != []
    ensures |MergeAttributes(list[..|list| - 1])| <= |MergeAttributes(list)|
    ensures forall k :: 0 <= k < |MergeAttributes(list[..|list| - 1])| ==>
      MergeAttributes(list)[k].key == MergeAttributes(list[..|list| - 1])[k].key
  {
  }

  /** The last entry has another key: the merged entry for `key` is the one already there. */
  lemma {:induction false} MergeValueOfOther(list: seq<Attribute>, key: string)
    requires list != [] && HasKey(list[..|list| - 1], key) && list[|list| - 1].key != key
    ensures ValuesOf(list, key) != []
    ensures FindKey(MergeAttributes(list), key) < |MergeAttributes(list)|
    ensures MergeAttributes(list)[FindKey(MergeAttributes(list), key)].value == MergedValue(ValuesOf(list, key))
    decreases |list|, 0
  {
    var init := list[..|list| - 1];
    var acc := MergeAttributes(init);
    var r := MergeAttributes(list);
    MergeValueOfKey(init, key);
    MergeSnocKeys(list);
    var f := FindKey(acc, key);
    FindKeyAt(r, key, f);
    assert ValuesOf(list, key) == ValuesOf(init, key);
  }

  /** The last entry brings a key not seen before: it is appended with its own value. */
  lemma {:induction false} MergeValueOfNew(list: seq<Attribute>, key: string)
    requires list != [] && list[|list| - 1].key == key
    requires FindKey(MergeAttributes(list[..|list| - 1]), key) == |MergeAttributes(list[..|list| - 1])|
    ensures ValuesOf(list, key) != []
    ensures FindKey(MergeAttributes(list), key) < |MergeAttributes(list)|
    ensures MergeAttributes(list)[FindKey(MergeAttributes(list), key)].value == MergedValue(ValuesOf(list, key))
  {
    var init := list[..|list| - 1];
    var acc := MergeAttributes(init);
    var r := MergeAttributes(list);
    MergeKeySet(init, key);
    if ValuesOf(init, key) != [] {
      ValuesNonEmptyKey(init, key);
    }
    assert ValuesOf(list, key) == [list[|list| - 1].value];
    MergeSnocKeys(list);
    FindKeyAt(r, key, |acc|);
  }

  /** The last entry repeats a known key: its value is combined into the existing entry. */
  lemma {:induction false} MergeValueOfKnown(list: seq<Attribute>, key: string)
    requires list != [] && list[|list| - 1].key == key
    requires FindKey(MergeAttributes(list[..|list| - 1]), key) < |MergeAttributes(list[..|list| - 1])|
    ensures ValuesOf(list, key) != []
    ensures FindKey(MergeAttributes(list), key) < |MergeAttributes(list)|
    ensures MergeAttributes(list)[FindKey(MergeAttributes(list), key)].value == MergedValue(ValuesOf(list, key))
    decreases |list|, 0
  {
    var init := list[..|list| - 1];
    var acc := MergeAttributes(init);
    var r := MergeAttributes(list);
    var idx := FindKey(acc, key);
    MergeKeySet(init, key);
    MergeValueOfKey(init, key);
    var vs := ValuesOf(list, key);
    assert vs == ValuesOf(init, key) + [list[|list| - 1].value];
    assert vs[..|vs| - 1] == ValuesOf(init, key);
    MergeSnocKeys(list);
    FindKeyAt(r, key, idx);
  }

  /**
   * Each merged entry carries the per-key merge of all values given for its
   * key; a key given once keeps its value verbatim.
   */
  lemma MergeValues(list: seq<Attribute>)
    ensures forall i :: 0 <= i < |MergeAttributes(list)| ==>
      ValuesOf(list, MergeAttributes(list)[i].key) != [] &&
      MergeAttributes(list)[i].value == MergedValue(ValuesOf(list, MergeAttributes(list)[i].key))
  {
    var r := MergeAttributes(list);
    MergeDistinct(list);
    forall i | 0 <= i < |r|
      ensures ValuesOf(list, r[i].key) != [] && r[i].value == MergedValue(ValuesOf(list, r[i].key))
    {
      MergeKeySet(list, r[i].key);
      MergeValueOfKey(list, r[i].key);
      assert FindKey(r, r[i].key) == i;
    }
  }

  /** The fold over one more entry of the list absorbs that entry. */
  lemma MergePrefixStep(list: seq<Attribute>, n: nat)
    requires n < |list|
    ensures MergeAttributes(list[..n + 1]) == Absorb(MergeAttributes(list[..n]), list[n])
  {
    assert list[..n + 1][..n] == list[..n];
  }

  /** `acc.find((attr) => attr.key === key)`: a linear search from the front. */
  method Find(acc: seq<Attribute>, key: string) returns (i: nat)
    ensures i == FindKey(acc, key)
  {
    i := 0;
    while i < |acc| && acc[i].key != key
      invariant 0 <= i <= |acc|
      invariant forall k :: 0 <= k < i ==> acc[k].key != key
    {
      i := i + 1;
    }
    FindKeyAt(acc, key, i);
  }

  /**
   * The body of the `reduce` callback: `find` the entry with the same key;
   * overwrite its value in place when there is one, push the attribute
   * when there is none.
   */
  method Accumulate(acc: seq<Attribute>, a: Attribute) returns (next: seq<Attribute>)
    ensures next == Absorb(acc, a)
  {
    var i := Find(acc, a.key);
    if i == |acc| {
      next := acc + [a];
    } else {
      next := acc[i := Attribute(acc[i].key, CombineValues(acc[i].value, a.value))];
    }
  }

  /**
   * The `reduce` as the source runs it: the accumulator is searched with
   * `find`, and a hit has its value overwritten in place.
   */
  method Merge(list: seq<Attribute>) returns (acc: seq<Attribute>)
    ensures acc == MergeAttributes(list)
    ensures DistinctKeys(acc)
  {
    acc := [];
    var n := 0;
    while n < |list|
      invariant 0 <= n <= |list|
      invariant acc == MergeAttributes(list[..n])
    {
      MergePrefixStep(list, n);
      acc := Accumulate(acc, list[n]);
      n := n + 1;
    }
    assert list[..|list|] == list;
    MergeDistinct(list);
  }

  // ---------------------------------------------------------------------
  // getAttributes and the translator
  // ---------------------------------------------------------------------

  /** The top-level attribute components as `{key: name, value}` entries, in order. */
  function TopAttributes(cs: seq<Component>): seq<Attribute>
  {
    if cs == [] then []
    else (if cs[0].Attr? then [Attribute(cs[0].name, cs[0].value)] else []) + TopAttributes(cs[1..])
  }

  /** The attributes of every pseudo-class argument, each merged on its own, in pseudo-class order. */
  function PseudoAttributes(cs: seq<Component>): seq<Attribute>
    decreases cs, 0
  {
    if cs == [] then []
    else (if cs[0].Pseudo? then GetAttributes(cs[0].arg) else []) + PseudoAttributes(cs[1..])
  }

  /** `getAttributes`: top-level attributes first, then the pseudo-derived ones, merged by key. */
  function GetAttributes(cs: seq<Component>): seq<Attribute>
    decreases cs, 1
  {
    MergeAttributes(TopAttributes(cs) + PseudoAttributes(cs))
  }

  /** The attribute names at every depth of a selector, through all pseudo-class arguments. */
  function AttrKeys(cs: seq<Component>): set<string>
  {
    if cs == [] then {}
    else
      (match cs[0]
       case Attr(n, _) => {n}
       case Pseudo(_, a) => AttrKeys(a)
       case _ => {})
      + AttrKeys(cs[1..])
  }

  lemma HasKeyAppend(a: seq<Attribute>, b: seq<Attribute>, key: string)
    ensures HasKey(a + b, key) <==> HasKey(a, key) || HasKey(b, key)
  {
    if HasKey(a + b, key) {
      var i :| 0 <= i < |a + b| && (a + b)[i].key == key;
      if i >= |a| {
        assert b[i - |a|].key == key;
      }
    }
    if HasKey(b, key) {
      var i :| 0 <= i < |b| && b[i].key == key;
      assert (a + b)[i + |a|].key == key;
    }
    if HasKey(a, key) {
      var i :| 0 <= i < |a| && a[i].key == key;
      assert (a + b)[i].key == key;
    }
  }

  lemma {:induction false} ListKeys(cs: seq<Component>, key: string)
    ensures HasKey(TopAttributes(cs) + PseudoAttributes(cs), key) <==> key in AttrKeys(cs)
    decreases cs, 0
  {
    if cs == [] {
      assert TopAttributes(cs) + PseudoAttributes(cs) == [];
    } else {
      var c := cs[0];
      var top := if c.Attr? then [Attribute(c.name, c.value)] else [];
      var ps := if c.Pseudo? then GetAttributes(c.arg) else [];
      var restTop, restPs := TopAttributes(cs[1..]), PseudoAttributes(cs[1..]);
      ListKeys(cs[1..], key);
      HasKeyAppend(top, restTop, key);
      HasKeyAppend(ps, restPs, key);
      HasKeyAppend(top + restTop, ps + restPs, key);
      HasKeyAppend(restTop, restPs, key);
      if c.Pseudo? {
        AttributeKeys(c.arg, key);
      }
      if c.Attr? {
        assert top[0].key == c.name;
      }
    }
  }

  /** No attribute name is invented or dropped, at any depth of pseudo-class nesting. */
  lemma {:induction false} AttributeKeys(cs: seq<Component>, key: string)
    ensures HasKey(GetAttributes(cs), key) <==> key in AttrKeys(cs)
    decreases cs, 1
  {
    ListKeys(cs, key);
    MergeKeySet(TopAttributes(cs) + PseudoAttributes(cs), key);
  }

  /** Merging `top + rest`: entries keyed by some key of `top` come before all the others. */
  lemma PrefixKeysFirst(top: seq<Attribute>, rest: seq<Attribute>, i: int, j: int)
    requires 0 <= i < |MergeAttributes(top + rest)| && 0 <= j < |MergeAttributes(top + rest)|
    requires HasKey(top, MergeAttributes(top + rest)[i].key)
    requires !HasKey(top, MergeAttributes(top + rest)[j].key)
    ensures i < j
  {
    var r := MergeAttributes(top + rest);
    MergeKeyOrder(top + rest);
    FindKeyAppend(top, rest, r[i].key);
    FindKeyAppend(top, rest, r[j].key);
  }

  /** Searching `top + rest` finds a key of `top` where `top` has it, and any other key only past `top`. */
  lemma FindKeyAppend(top: seq<Attribute>, rest: seq<Attribute>, key: string)
    ensures HasKey(top, key) ==> FindKey(top + rest, key) == FindKey(top, key) < |top|
    ensures !HasKey(top, key) ==> FindKey(top + rest, key) >= |top|
  {
    var list := top + rest;
    var f, t := FindKey(list, key), FindKey(top, key);
    assert t < |top| ==> list[t] == top[t];
    assert f < |top| ==> list[f] == top[f];
    assert forall k :: 0 <= k < |top| ==> list[k] == top[k];
  }

  /**
   * The attribute list of a selector: one entry per attribute name found
   * anywhere in it, and entries named at the top level come before all
   * entries that only pseudo-class arguments supply.
   */
  lemma GetAttributesSpec(cs: seq<Component>)
    ensures DistinctKeys(GetAttributes(cs))
    ensures forall key :: HasKey(GetAttributes(cs), key) <==> key in AttrKeys(cs)
    ensures forall i, j ::
      (0 <= i < |GetAttributes(cs)| && 0 <= j < |GetAttributes(cs)|
       && HasKey(TopAttributes(cs), GetAttributes(cs)[i].key)
       && !HasKey(TopAttributes(cs), GetAttributes(cs)[j].key)) ==> i < j
  {
    var top, ps := TopAttributes(cs), PseudoAttributes(cs);
    var r := GetAttributes(cs);
    assert r == MergeAttributes(top + ps);
    MergeDistinct(top + ps);
    forall key ensures HasKey(r, key) <==> key in AttrKeys(cs) {
      AttributeKeys(cs, key);
    }
    forall i, j | 0 <= i < |r| && 0 <= j < |r| && HasKey(top, r[i].key) && !HasKey(top, r[j].key)
      ensures i < j
    {
      PrefixKeysFirst(top, ps, i, j);
    }
  }

  /** `selector.replace('&', '')`: only the first occurrence is removed. */
  predicate FirstAmpAt(s: string, i: int)
  {
    0 <= i < |s| && s[i] == '&' && '&' !in s[..i]
  }

  /** The index of the first `&`, or |s| when there is none. */
  function FirstAmp(s: string): (i: nat)
    ensures i <= |s| && '&' !in s[..i]
    ensures i < |s| ==> s[i] == '&'
  {
    if s == [] || s[0] == '&' then 0
    else
      var j := FirstAmp(s[1..]);
      assert s[..j + 1] == [s[0]] + s[1..][..j];
      j + 1
  }

  function RemoveFirstAmp(s: string): (r: string)
    ensures '&' !in s ==> r == s
    ensures '&' in s ==> |r| == |s| - 1 && exists i :: FirstAmpAt(s, i) && r == s[..i] + s[i + 1..]
  {
    var i := FirstAmp(s);
    if i == |s| then
      assert s[..i] == s;
      s
    else
      assert FirstAmpAt(s, i);
      s[..i] + s[i + 1..]
  }

  /** The flattened components of a rule selector, after the nesting marker is removed. */
  function Components(selector: string, parse: SelectorParser): seq<Component>
  {
    Flatten(parse(RemoveFirstAmp(selector)))
  }

  /**
   * `transformer`: an element with no children whose tag name comes from
   * the selector (or is "div") and whose attributes are the merged
   * attributes, one per name.
   */
  function Transform(selector: string, parse: SelectorParser): (r: Html)
    ensures r.Element? && r.children == []
    ensures r.tagName == "div" || r.tagName in TagNames(Components(selector, parse))
    ensures DistinctKeys(r.attributes)
    ensures forall key :: HasKey(r.attributes, key) <==> key in AttrKeys(Components(selector, parse))
  {
    var cs := Components(selector, parse);
    TagNameOrigin(cs);
    GetAttributesSpec(cs);
    Element(GetTagName(cs), GetAttributes(cs), [])
  }
}

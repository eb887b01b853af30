/**
 * Selector scoping: `adjustName` rewrites one selector against the parent
 * scope, and `morphRule` applies it in place across a parsed rule tree.
 */
module Selectors {
  import opened GoStrings
  import opened Douceur

  /** The parent-reference marker. */
  const Marker: char := '&'

  /**
   * adjustName: trim the selector; if it holds `&`, put the parent scope in
   * place of every `&`; else if it starts with `:`, put the parent scope in
   * front of it; otherwise keep the trimmed selector.
   */
  function AdjustName(sel: string, parentNode: string): (r: string)
    ensures Marker in r ==> Marker in parentNode
  {
    var t := TrimSpace(sel);
    if Marker in t then ReplaceAll(t, Marker, parentNode)
    else if StartsWithColon(t) then parentNode + "" + t
    else t
  }

  /** A selector with neither `&` nor a leading `:` comes back trimmed, whatever the parent scope. */
  lemma AdjustNamePlain(sel: string, parentNode: string, other: string)
    requires Marker !in TrimSpace(sel) && !StartsWithColon(TrimSpace(sel))
    ensures AdjustName(sel, parentNode) == TrimSpace(sel) == AdjustName(sel, other)
    ensures Trimmed(AdjustName(sel, parentNode))
  {
    TrimSpaceInfix(sel);
  }

  /** A pseudo-selector is glued to the parent scope with no separator. */
  lemma AdjustNamePseudo(sel: string, parentNode: string)
    requires Marker !in TrimSpace(sel) && StartsWithColon(TrimSpace(sel))
    ensures var r := AdjustName(sel, parentNode);
      && r[..|parentNode|] == parentNode
      && r[|parentNode|..] == TrimSpace(sel)
      && r[|parentNode|] == ':'
  {
  }

  /**
   * With `&` present, every `&` and nothing else is replaced: scoping with
   * `&` itself as parent gives the trimmed selector back, each `&` adds
   * |parentNode| - 1 characters, and no `&` survives unless the parent has one.
   */
  lemma AdjustNameReplacesEveryMarker(sel: string, parentNode: string)
    requires Marker in TrimSpace(sel)
    ensures AdjustName(sel, [Marker]) == TrimSpace(sel)
    ensures |AdjustName(sel, parentNode)| == |TrimSpace(sel)| + Count(TrimSpace(sel), Marker) * (|parentNode| - 1)
    ensures Marker !in parentNode ==> Marker !in AdjustName(sel, parentNode)
  {
    ReplaceAllIdentity(TrimSpace(sel), Marker);
    ReplaceAllLength(TrimSpace(sel), Marker, parentNode);
  }

  /** Surrounding white space never matters: the selector is trimmed first. */
  lemma AdjustNameIgnoresPadding(sel: string, parentNode: string)
    ensures AdjustName(TrimSpace(sel), parentNode) == AdjustName(sel, parentNode)
  {
    TrimSpaceIdempotent(sel);
  }

  /** AdjustName applied to each selector, in order. */
  function AdjustAll(sels: seq<string>, parentNode: string): (r: seq<string>)
    ensures |r| == |sels|
    ensures forall i {:trigger r[i]} :: 0 <= i < |sels| ==> r[i] == AdjustName(sels[i], parentNode)
  {
    if sels == [] then [] else [AdjustName(sels[0], parentNode)] + AdjustAll(sels[1..], parentNode)
  }

  /** Adjusting a concatenation adjusts each part. */
  lemma {:induction false} AdjustAllAppend(a: seq<string>, b: seq<string>, parentNode: string)
    ensures AdjustAll(a + b, parentNode) == AdjustAll(a, parentNode) + AdjustAll(b, parentNode)
  {
    if a == [] {
      assert a + b == b;
    } else {
      assert (a + b)[0] == a[0];
      assert (a + b)[1..] == a[1..] + b;
      calc {
        AdjustAll(a + b, parentNode);
        [AdjustName(a[0], parentNode)] + AdjustAll(a[1..] + b, parentNode);
        { AdjustAllAppend(a[1..], b, parentNode); }
        [AdjustName(a[0], parentNode)] + (AdjustAll(a[1..], parentNode) + AdjustAll(b, parentNode));
        AdjustAll(a, parentNode) + AdjustAll(b, parentNode);
      }
    }
  }

  /** What morphRule makes of a parsed rule: its own selectors and its nested rules rewritten. */
  function MorphTree(t: Tree, parentNode: string): (r: Tree)
    ensures r.kind == t.kind && r.prelude == t.prelude && r.declarations == t.declarations
    ensures |r.selectors| == |t.selectors|
    ensures forall i :: 0 <= i < |t.selectors| ==> r.selectors[i] == AdjustName(t.selectors[i], parentNode)
    ensures |r.rules| == |t.rules|
    decreases t, 0
  {
    t.(selectors := AdjustAll(t.selectors, parentNode),
       rules := seq(|t.rules|, j requires 0 <= j < |t.rules| => MorphChild(t.rules[j], parentNode)))
  }

  /** A nested rule: an at-rule is morphed recursively, any other rule has only its own selectors rewritten. */
  function MorphChild(c: Tree, parentNode: string): (r: Tree)
    ensures r.kind == c.kind && r.prelude == c.prelude && r.declarations == c.declarations
    ensures |r.selectors| == |c.selectors| && |r.rules| == |c.rules|
    ensures forall i :: 0 <= i < |c.selectors| ==> r.selectors[i] == AdjustName(c.selectors[i], parentNode)
    ensures c.kind != AtRule ==> r.rules == c.rules
    decreases c, 1
  {
    if c.kind == AtRule then MorphTree(c, parentNode)
    else c.(selectors := AdjustAll(c.selectors, parentNode))
  }

  /** Two trees agree in everything but the text of their selectors. */
  predicate SameShape(a: Tree, b: Tree)
  {
    && a.kind == b.kind
    && a.prelude == b.prelude
    && a.declarations == b.declarations
    && |a.selectors| == |b.selectors|
    && |a.rules| == |b.rules|
    && forall j :: 0 <= j < |a.rules| ==> SameShape(a.rules[j], b.rules[j])
  }

  /**
   * The selectors morphRule rewrites, in order: the rule's own, then for each
   * nested rule either all those it scopes (an at-rule) or just its own.
   */
  function ScopedSelectors(t: Tree): seq<string>
    decreases t, 1
  {
    t.selectors + ScopedChildren(t, 0)
  }

  function ScopedChildren(t: Tree, k: nat): seq<string>
    requires k <= |t.rules|
    decreases t, 0, |t.rules| - k
  {
    if k == |t.rules| then []
    else
      (if t.rules[k].kind == AtRule then ScopedSelectors(t.rules[k]) else t.rules[k].selectors)
      + ScopedChildren(t, k + 1)
  }

  /** Morphing changes selector text only: kinds, preludes, declarations, counts and order are kept. */
  lemma {:induction false} MorphTreeSameShape(t: Tree, parentNode: string)
    ensures SameShape(MorphTree(t, parentNode), t)
    decreases t
  {
    var m := MorphTree(t, parentNode);
    forall j | 0 <= j < |t.rules|
      ensures SameShape(m.rules[j], t.rules[j])
    {
      var c := t.rules[j];
      assert m.rules[j] == MorphChild(c, parentNode);
      if c.kind == AtRule {
        MorphTreeSameShape(c, parentNode);
      } else {
        SameShapeReflexive(c);
      }
    }
  }

  lemma {:induction false} SameShapeReflexive(t: Tree)
    ensures SameShape(t, t)
    decreases t
  {
    forall j | 0 <= j < |t.rules| ensures SameShape(t.rules[j], t.rules[j]) {
      SameShapeReflexive(t.rules[j]);
    }
  }

  /**
   * Morphing rewrites exactly the scoped selectors, each with AdjustName,
   * and keeps their order.
   */
  lemma {:induction false} MorphTreeScoped(t: Tree, parentNode: string)
    ensures ScopedSelectors(MorphTree(t, parentNode)) == AdjustAll(ScopedSelectors(t), parentNode)
    decreases t, 1
  {
    MorphChildrenScoped(t, parentNode, 0);
    AdjustAllAppend(t.selectors, ScopedChildren(t, 0), parentNode);
  }

  lemma {:induction false} MorphChildrenScoped(t: Tree, parentNode: string, k: nat)
    requires k <= |t.rules|
    ensures ScopedChildren(MorphTree(t, parentNode), k) == AdjustAll(ScopedChildren(t, k), parentNode)
    decreases t, 0, |t.rules| - k
  {
    var m := MorphTree(t, parentNode);
    if k < |t.rules| {
      var c := t.rules[k];
      MorphChildrenScoped(t, parentNode, k + 1);
      if c.kind == AtRule {
        MorphTreeScoped(c, parentNode);
        AdjustAllAppend(ScopedSelectors(c), ScopedChildren(t, k + 1), parentNode);
      } else {
        AdjustAllAppend(c.selectors, ScopedChildren(t, k + 1), parentNode);
      }
    }
  }

  /** With a parent scope free of `&`, no scoped selector of the result still holds `&`. */
  lemma MorphTreeResolvesMarkers(t: Tree, parentNode: string)
    requires Marker !in parentNode
    ensures forall s :: s in ScopedSelectors(MorphTree(t, parentNode)) ==> Marker !in s
  {
    MorphTreeScoped(t, parentNode);
  }

  /** morphRule's first loop: every selector of the array rewritten in place, in index order. */
  method AdjustArray(sels: array<string>, parentNode: string)
    modifies sels
    ensures sels[..] == AdjustAll(old(sels[..]), parentNode)
  {
    for index := 0 to sels.Length
      invariant forall j :: 0 <= j < index ==> sels[j] == AdjustName(old(sels[j]), parentNode)
      invariant forall j :: index <= j < sels.Length ==> sels[j] == old(sels[j])
    {
      sels[index] := AdjustName(sels[index], parentNode);
    }
    ghost var want := AdjustAll(old(sels[..]), parentNode);
    assert forall j :: 0 <= j < sels.Length ==> sels[..][j] == want[j];
  }

  /** Rewrites the selectors of one rule in place; nothing else of the rule tree changes. */
  method AdjustSelectors(rule: CssRule, parentNode: string)
    requires rule.Valid()
    modifies rule.selectors
    ensures rule.Snapshot() == old(rule.Snapshot()).(selectors := AdjustAll(old(rule.selectors[..]), parentNode))
  {
    AdjustArray(rule.selectors, parentNode);
  }

  /** morphRule: rewrites base's selectors, then those of its nested rules, recursing into at-rules. */
  method MorphRule(base: CssRule, parentNode: string)
    requires base.Valid()
    modifies base.Arrays
    ensures base.Snapshot() == MorphTree(old(base.Snapshot()), parentNode)
    decreases base.Arrays, 1
  {
    AdjustSelectors(base, parentNode);
    ghost var mid := base.Snapshot();
    MorphNestedRules(base, parentNode);
    ghost var was, now := old(base.Snapshot()), base.Snapshot();
    assert |now.rules| == |was.rules|;
    forall j | 0 <= j < |now.rules| ensures now.rules[j] == MorphChild(was.rules[j], parentNode) {
      assert was.rules[j] == mid.rules[j];
    }
  }

  /** morphRule's second loop: each nested rule in turn, base's own selectors left alone. */
  method MorphNestedRules(base: CssRule, parentNode: string)
    requires base.Valid()
    modifies base.Arrays - {base.selectors}
    ensures base.Snapshot() == old(base.Snapshot()).(rules := seq(|base.rules|, j requires 0 <= j < |base.rules| => MorphChild(old(base.Snapshot()).rules[j], parentNode)))
    decreases base.Arrays, 0
  {
    for k := 0 to |base.rules|
      invariant forall j :: 0 <= j < k ==> base.rules[j].Snapshot() == MorphChild(old(base.rules[j].Snapshot()), parentNode)
      invariant forall j :: k <= j < |base.rules| ==> base.rules[j].Snapshot() == old(base.rules[j].Snapshot())
    {
      MorphNested(base.rules[k], parentNode);
    }
    ghost var was, now := old(base.Snapshot()), base.Snapshot();
    forall j | 0 <= j < |now.rules| ensures now.rules[j] == MorphChild(was.rules[j], parentNode) {
      assert now.rules[j] == base.rules[j].Snapshot();
      assert was.rules[j] == old(base.rules[j].Snapshot());
    }
  }

  /** One nested rule of morphRule's second loop: recurse on an at-rule, else rewrite its own selectors only. */
  method MorphNested(rule: CssRule, parentNode: string)
    requires rule.Valid()
    modifies rule.Arrays
    ensures rule.Snapshot() == MorphChild(old(rule.Snapshot()), parentNode)
    decreases rule.Arrays, 2
  {
    if rule.kind == AtRule {
      MorphRule(rule, parentNode);
    } else {
      AdjustSelectors(rule, parentNode);
    }
  }

  /** Every parsed top-level rule morphed, in order. */
  function MorphAll(parsed: seq<Tree>, parentNode: string): (r: seq<Tree>)
    ensures |r| == |parsed|
    ensures forall i :: 0 <= i < |r| ==> r[i] == MorphTree(parsed[i], parentNode)
  {
    seq(|parsed|, i requires 0 <= i < |parsed| => MorphTree(parsed[i], parentNode))
  }

  /**
   * The loop of Stylesheet over the parsed rules: each rule object the parser
   * returns is morphed in place; the morphed rules are the result.
   */
  method MorphParsed(parsed: seq<Tree>, parentNode: string) returns (own: seq<Tree>)
    ensures |own| == |parsed|
    ensures forall i :: 0 <= i < |parsed| ==> own[i] == MorphTree(parsed[i], parentNode)
  {
    own := [];
    for i := 0 to |parsed|
      invariant |own| == i
      invariant forall j :: 0 <= j < i ==> own[j] == MorphTree(parsed[j], parentNode)
    {
      var rule := Build(parsed[i]);
      MorphRule(rule, parentNode);
      var morphed := rule.Snapshot();
      own := own + [morphed];
    }
  }
}

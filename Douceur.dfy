/**
 * The shape of a parsed stylesheet as the CSS parser delivers it: rules with
 * a kind, a raw prelude, ordered selectors, ordered declarations and nested
 * rules. `Tree` is a rule as a value; `CssRule` is the parser's mutable rule
 * object whose selectors are rewritten in place.
 */
module Douceur {

  /** Whether a rule is an ordinary qualified rule or an at-rule such as `@media`. */
  datatype Kind = QualifiedRule | AtRule

  /** One `property: value` pair, possibly marked `!important`. */
  datatype Declaration = Declaration(property: string, value: string, important: bool)

  /** A rule and its nested rules, as a value. */
  datatype Tree = Tree(
    kind: Kind,
    prelude: string,
    selectors: seq<string>,
    declarations: seq<Declaration>,
    rules: seq<Tree>)

  /** All the selector arrays of a list of rule objects. */
  ghost function ArraysOf(rs: seq<CssRule>): (r: set<array<string>>)
    ensures forall j :: 0 <= j < |rs| ==> rs[j].Arrays <= r
    ensures forall a :: a in r ==> exists j :: 0 <= j < |rs| && a in rs[j].Arrays
  {
    if rs == [] then {} else rs[0].Arrays + ArraysOf(rs[1..])
  }

  /**
   * A parsed rule object. Only the contents of the selector arrays change
   * after parsing; `Arrays` is the footprint: this rule's selector array and
   * those of every rule nested below it.
   */
  class CssRule {
    const kind: Kind
    const prelude: string
    const selectors: array<string>
    const declarations: seq<Declaration>
    const rules: seq<CssRule>
    ghost const Arrays: set<array<string>>

    /**
     * The tree is well formed: every nested rule's footprint lies inside
     * this one's, does not hold this rule's selector array, and no two
     * nested rules share a selector array.
     */
    ghost predicate Valid()
      decreases Arrays
    {
      && selectors in Arrays
      && (forall j :: 0 <= j < |rules| ==>
            && rules[j].Arrays <= Arrays
            && selectors !in rules[j].Arrays
            && rules[j].Valid())
      && (forall j, k :: 0 <= j < k < |rules| ==> rules[j].Arrays !! rules[k].Arrays)
    }

    /** The rule as a value, as it stands in the current state. */
    function Snapshot(): (t: Tree)
      requires Valid()
      reads Arrays
      decreases Arrays
    {
      Tree(kind, prelude, selectors[..], declarations,
           seq(|rules|, j requires 0 <= j < |rules| reads Arrays => rules[j].Snapshot()))
    }

    /** A rule over freshly allocated selectors, above already built nested rules. */
    constructor (kind: Kind, prelude: string, sels: seq<string>, declarations: seq<Declaration>, children: seq<CssRule>)
      requires forall j :: 0 <= j < |children| ==> children[j].Valid()
      requires forall j, k :: 0 <= j < k < |children| ==> children[j].Arrays !! children[k].Arrays
      ensures Valid() && fresh(selectors)
      ensures Arrays == {selectors} + ArraysOf(children)
      ensures Snapshot() == Tree(kind, prelude, sels, declarations,
                                 seq(|children|, j requires 0 <= j < |children| reads ArraysOf(children) => children[j].Snapshot()))
    {
      this.kind := kind;
      this.prelude := prelude;
      this.declarations := declarations;
      this.rules := children;
      var a := new string[|sels|](i requires 0 <= i < |sels| => sels[i]);
      this.selectors := a;
      this.Arrays := {a} + ArraysOf(children);
      new;
      assert selectors[..] == sels;
    }
  }

  /** Allocates the rule objects of t, as the parser does when it returns a parsed rule. */
  method Build(t: Tree) returns (r: CssRule)
    ensures r.Valid() && fresh(r.Arrays)
    ensures r.Snapshot() == t
    decreases t
  {
    var children: seq<CssRule> := [];
    for i := 0 to |t.rules|
      invariant |children| == i
      invariant forall j :: 0 <= j < i ==> children[j].Valid() && fresh(children[j].Arrays)
      invariant forall j :: 0 <= j < i ==> children[j].Snapshot() == t.rules[j]
      invariant forall j, k :: 0 <= j < k < i ==> children[j].Arrays !! children[k].Arrays
    {
      var c := Build(t.rules[i]);
      children := children + [c];
    }
    r := new CssRule(t.kind, t.prelude, t.selectors, t.declarations, children);
  }
}

/**
 * The `extend` template function: the declarations of the first rule of the
 * feed stylesheet whose prelude is the requested name, printed one per line.
 */
module Extension {
  import opened Wrappers
  import opened GoStrings
  import opened Douceur

  /**
   * The CSS library's declaration printers, left abstract: `plain` is
   * Declaration.String and `withImportant` is Declaration.StringWithImportant.
   */
  datatype Printer = Printer(plain: Declaration -> string, withImportant: (Declaration, bool) -> string)

  /** One declaration as extend prints it: important ones through StringWithImportant. */
  function Render(printer: Printer, d: Declaration): (r: string)
    ensures d.important ==> r == printer.withImportant(d, true)
    ensures !d.important ==> r == printer.plain(d)
  {
    if d.important then printer.withImportant(d, d.important) else printer.plain(d)
  }

  /** The declarations printed, in order. */
  function Rendered(printer: Printer, decls: seq<Declaration>): (r: seq<string>)
    ensures |r| == |decls|
    ensures forall i :: 0 <= i < |decls| ==> r[i] == Render(printer, decls[i])
  {
    seq(|decls|, i requires 0 <= i < |decls| => Render(printer, decls[i]))
  }

  /** The index of the first rule whose prelude is item, if any. */
  function FirstMatch(rules: seq<Tree>, item: string): (r: Option<nat>)
    ensures r.Some? ==> r.value < |rules| && rules[r.value].prelude == item
    ensures r.Some? ==> forall j :: 0 <= j < r.value ==> rules[j].prelude != item
    ensures r.None? <==> forall j :: 0 <= j < |rules| ==> rules[j].prelude != item
  {
    if rules == [] then None
    else if rules[0].prelude == item then Some(0)
    else match FirstMatch(rules[1..], item)
      case None => None
      case Some(k) => Some(k + 1)
  }

  /**
   * What extend(item) returns given the cached feed stylesheet: nothing
   * without a feed stylesheet or without a matching rule; otherwise the
   * first matching rule's declarations joined by newlines.
   */
  function ExtendOf(printer: Printer, feedStyle: Option<seq<Tree>>, item: string): (r: string)
    ensures feedStyle.None? ==> r == ""
    ensures feedStyle.Some? && (forall j :: 0 <= j < |feedStyle.value| ==> feedStyle.value[j].prelude != item) ==> r == ""
  {
    match feedStyle
    case None => ""
    case Some(rules) =>
      match FirstMatch(rules, item)
      case None => ""
      case Some(k) => Join(Rendered(printer, rules[k].declarations), "\n")
  }

  /** The extend function handed to the template, bound to one feed stylesheet. */
  function Extender(printer: Printer, feedStyle: Option<seq<Tree>>): (f: string -> string)
    ensures forall item :: f(item) == ExtendOf(printer, feedStyle, item)
    ensures feedStyle.None? ==> forall item :: f(item) == ""
  {
    item => ExtendOf(printer, feedStyle, item)
  }

  /** First match wins: the output is that of the first rule whose prelude is item. */
  lemma ExtendFirstMatchWins(printer: Printer, rules: seq<Tree>, item: string, k: nat)
    requires k < |rules| && rules[k].prelude == item
    requires forall j :: 0 <= j < k ==> rules[j].prelude != item
    ensures ExtendOf(printer, Some(rules), item) == Join(Rendered(printer, rules[k].declarations), "\n")
  {
    var m := FirstMatch(rules, item);
    assert m.Some?;
    assert !(m.value < k) && !(k < m.value);
  }

  /** Rules after a match are never looked at: appending rules does not change the output. */
  lemma {:induction false} ExtendIgnoresLaterRules(printer: Printer, rules: seq<Tree>, later: seq<Tree>, item: string)
    requires exists k :: 0 <= k < |rules| && rules[k].prelude == item
    ensures ExtendOf(printer, Some(rules + later), item) == ExtendOf(printer, Some(rules), item)
  {
    var k := FirstMatch(rules, item).value;
    assert (rules + later)[k] == rules[k];
    ExtendFirstMatchWins(printer, rules + later, item, k);
    ExtendFirstMatchWins(printer, rules, item, k);
  }

  /**
   * A matching rule with one declaration is extended into exactly that
   * declaration's printing, so an important declaration and a plain one are
   * told apart whenever the two printers tell them apart.
   */
  lemma ExtendImportantDistinguished(printer: Printer, prelude: string, d: Declaration, rest: seq<Tree>)
    requires printer.withImportant(d.(important := true), true) != printer.plain(d.(important := false))
    ensures var important := Tree(QualifiedRule, prelude, [], [d.(important := true)], []);
            var plain := Tree(QualifiedRule, prelude, [], [d.(important := false)], []);
            && ExtendOf(printer, Some([important] + rest), prelude) == printer.withImportant(d.(important := true), true)
            && ExtendOf(printer, Some([plain] + rest), prelude) == printer.plain(d.(important := false))
            && ExtendOf(printer, Some([important] + rest), prelude) != ExtendOf(printer, Some([plain] + rest), prelude)
  {
    var important := Tree(QualifiedRule, prelude, [], [d.(important := true)], []);
    var plain := Tree(QualifiedRule, prelude, [], [d.(important := false)], []);
    ExtendFirstMatchWins(printer, [important] + rest, prelude, 0);
    ExtendFirstMatchWins(printer, [plain] + rest, prelude, 0);
  }
}

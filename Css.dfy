/**
 * The CSS rule engine: a Rule holds a template, an optional feed rule whose
 * stylesheet the template's `extend` function reads, and rules it depends
 * on, whose stylesheets come before its own. Stylesheet resolves the feed,
 * then the depends in order, runs the template, parses its output and
 * scopes the parsed selectors to the parent node.
 */
module Css {
  import opened Wrappers
  import opened GoStrings
  import opened Douceur
  import opened Selectors
  import opened Extension
  import opened Helpers

  /**
   * The collaborators the engine calls but does not define: executing a
   * template source against a binding with its function map (the helpers
   * and `extend`), the CSS parser, and the declaration printers.
   */
  datatype Env<!B> = Env(
    execute: (string, B, Funcs) -> Result<string>,
    parse: string -> Result<seq<Tree>>,
    printer: Printer)

  /** The function map a template runs with: the integer helpers and the rule's own `extend`. */
  datatype Funcs = Funcs(
    add: (Int, Int) -> Int,
    multiply: (Int, Int) -> Int,
    subtract: (Int, Int) -> Int,
    extend: string -> string)

  /** The helpers registered for every template, with `extend` reading the given feed stylesheet. */
  function TemplateFuncs(printer: Printer, feedStyle: Option<seq<Tree>>): (r: Funcs)
    ensures forall a: Int, b: Int :: r.add(a, b) == Add(a, b) && r.multiply(a, b) == Multiply(a, b)
    ensures forall a: Int, b: Int :: r.subtract(a, b) == Subtract(a, b)
    ensures forall item :: r.extend(item) == ExtendOf(printer, feedStyle, item)
  {
    Funcs(Add, Multiply, Subtract, Extender(printer, feedStyle))
  }

  /** What one resolution does, in order: enter a rule's Stylesheet, execute its template, parse the output. */
  datatype Step = Enter(rule: Rule) | Execute(rule: Rule) | Parse(rule: Rule)

  /** A resolution's outcome together with the steps it took. */
  datatype Run = Run(result: Result<seq<Tree>>, steps: seq<Step>)

  /** The graphs of a list of rules, together. */
  ghost function GraphsOf(rs: seq<Rule>): (g: set<Rule>)
    ensures forall i :: 0 <= i < |rs| ==> rs[i].Graph() <= g
  {
    if rs == [] then {} else rs[0].Graph() + GraphsOf(rs[1..])
  }

  /** GraphsOf holds nothing else: every rule in it is in the graph of one of the rules. */
  lemma {:induction false} GraphsOfMember(rs: seq<Rule>, x: Rule)
    requires x in GraphsOf(rs)
    ensures exists i :: 0 <= i < |rs| && x in rs[i].Graph()
  {
    if x !in rs[0].Graph() {
      GraphsOfMember(rs[1..], x);
      var i :| 0 <= i < |rs[1..]| && x in rs[1..][i].Graph();
      assert rs[1..][i] == rs[i + 1];
    }
  }

  /** A bound on the depths of a list of rules. */
  ghost function MaxDepth(rs: seq<Rule>): (m: nat)
    ensures forall i :: 0 <= i < |rs| ==> rs[i].depth <= m
  {
    if rs == [] then 0 else var m := MaxDepth(rs[1..]); if rs[0].depth < m then m else rs[0].depth
  }

  /** A rule built over ranked rules, deeper than all of them and reaching exactly their graphs, is ranked. */
  lemma NewIsRanked(r: Rule)
    requires r.feed != null ==> r.feed.Ranked()
    requires forall i :: 0 <= i < |r.depends| ==> r.depends[i].Ranked()
    requires r.Reach == (if r.feed == null then {} else r.feed.Graph()) + GraphsOf(r.depends)
    requires r.feed != null ==> r.feed.depth < r.depth
    requires r.depth > MaxDepth(r.depends)
    ensures r.Ranked()
  {
    forall g | g in r.Reach ensures g.depth < r.depth && g.LocallyRanked() {
      if r.feed != null && g in r.feed.Graph() {
        r.feed.GraphDepth();
      } else {
        GraphsOfMember(r.depends, g);
        var i :| 0 <= i < |r.depends| && g in r.depends[i].Graph();
        r.depends[i].GraphDepth();
      }
    }
  }

  /** A ranked rule without a cached feed stylesheet, built over valid rules, is valid. */
  lemma NewIsValid(r: Rule)
    requires r.Ranked() && r.feedStyle.None?
    requires r.feed != null ==> r.feed.Valid()
    requires forall i :: 0 <= i < |r.depends| ==> r.depends[i].Valid()
    requires r.Reach == (if r.feed == null then {} else r.feed.Graph()) + GraphsOf(r.depends)
    ensures r.Valid()
  {
    forall g | g in r.Graph() && g.feed == null
      ensures g.feedStyle.None?
    {
      if g != r && !(r.feed != null && g in r.feed.Graph()) {
        GraphsOfMember(r.depends, g);
      }
    }
  }

  class Rule {
    const template: string
    const feed: Rule?
    const depends: seq<Rule>
    /** The feed's stylesheet from the latest resolution, read by `extend`. */
    var feedStyle: Option<seq<Tree>>
    /** Strictly larger than the depth of every rule reachable through feed and depends. */
    ghost const depth: nat
    /** Every rule reachable through feed and depends. */
    ghost const Reach: set<Rule>

    ghost function Graph(): set<Rule>
    {
      {this} + Reach
    }

    /** This rule's own edges lead to rules of smaller depth whose graphs lie in its reach. */
    ghost predicate LocallyRanked()
    {
      && (forall g :: g in Reach ==> g.depth < depth)
      && (feed != null ==> feed.depth < depth && feed.Graph() <= Reach)
      && (forall i :: 0 <= i < |depends| ==> depends[i].depth < depth && depends[i].Graph() <= Reach)
    }

    /** Every rule of the graph is locally ranked, so feed and depends edges always go down in depth and resolution terminates. */
    ghost predicate Ranked()
    {
      LocallyRanked() && forall g {:trigger g.LocallyRanked()} :: g in Reach ==> g.LocallyRanked()
    }

    /** Ranked, and a rule without a feed has no cached feed stylesheet. */
    ghost predicate Valid()
      reads Graph()
    {
      && Ranked()
      && forall g :: g in Graph() && g.feed == null ==> g.feedStyle.None?
    }

    /** New: stores the template source, the feed and the depends; nothing is resolved yet. */
    constructor (rules: string, extension: Rule?, rs: seq<Rule>)
      requires extension != null ==> extension.Valid()
      requires forall i :: 0 <= i < |rs| ==> rs[i].Valid()
      ensures Valid()
      ensures template == rules && feed == extension && depends == rs && feedStyle.None?
      ensures Reach == (if extension == null then {} else extension.Graph()) + GraphsOf(rs)
    {
      template := rules;
      feed := extension;
      depends := rs;
      feedStyle := None;
      ghost var m := MaxDepth(rs);
      depth := 1 + if extension != null && m < extension.depth then extension.depth else m;
      Reach := (if extension == null then {} else extension.Graph()) + GraphsOf(rs);
      new;
      NewIsRanked(this);
      NewIsValid(this);
    }

    /** No rule in the graph is deeper than this one. */
    lemma GraphDepth()
      requires Ranked()
      ensures forall g :: g in Graph() ==> g.depth <= depth
    {
    }

    /** extend: the feed stylesheet's first rule with prelude item, its declarations printed one per line. */
    method Extend(printer: Printer, item: string) returns (s: string)
      ensures s == ExtendOf(printer, feedStyle, item)
    {
      if feedStyle.None? {
        return "";
      }
      var rules := feedStyle.value;
      var attrs: seq<string> := [];
      var i := 0;
      while i < |rules|
        invariant 0 <= i <= |rules|
        invariant attrs == []
        invariant forall j :: 0 <= j < i ==> rules[j].prelude != item
      {
        if rules[i].prelude != item {
          i := i + 1;
          continue;
        }
        var decls := rules[i].declarations;
        for n := 0 to |decls|
          invariant attrs == Rendered(printer, decls[..n])
        {
          var prop := decls[n];
          if prop.important {
            attrs := attrs + [printer.withImportant(prop, prop.important)];
          } else {
            attrs := attrs + [printer.plain(prop)];
          }
        }
        assert decls[..|decls|] == decls;
        ExtendFirstMatchWins(printer, rules, item, i);
        break;
      }
      s := Join(attrs, "\n");
    }

    /**
     * Stylesheet: the depends' stylesheets in order, then this rule's own
     * parsed and scoped rules; the feed is resolved first and cached for
     * `extend`. The result and the steps taken are those of Resolve.
     */
    method Stylesheet<B>(env: Env<B>, bind: B, parentNode: string) returns (sheet: Result<seq<Tree>>, ghost steps: seq<Step>)
      requires Valid()
      modifies Graph()
      ensures Valid()
      ensures Run(sheet, steps) == Resolve(this, env, bind, parentNode)
      ensures feedStyle == if feed != null && Resolve(feed, env, bind, parentNode).result.Ok?
                           then Some(Resolve(feed, env, bind, parentNode).result.value)
                           else old(feedStyle)
      ensures forall g :: g in Graph() ==>
                g.feedStyle == old(g.feedStyle) || FreshFeedStyle(g, env, bind, parentNode, g.feedStyle)
      decreases depth, 4
    {
      steps := [Enter(this)];
      if feed != null {
        var fed, fedSteps := ResolveFeed(env, bind, parentNode);
        steps := steps + fedSteps;
        if fed.Err? {
          return fed, steps;
        }
        assert Resolve(feed, env, bind, parentNode).result.Ok?;
      } else {
        assert steps == [Enter(this)] + [];
      }
      assert Resolve(this, env, bind, parentNode) == AfterFeed(this, env, bind, parentNode, steps);
      sheet, steps := StylesheetAfterFeed(env, bind, parentNode, steps);
    }

    /** The first stage of Stylesheet: resolve the feed and, when that succeeds, cache its stylesheet. */
    method ResolveFeed<B>(env: Env<B>, bind: B, parentNode: string) returns (fed: Result<seq<Tree>>, ghost fedSteps: seq<Step>)
      requires Valid() && feed != null
      modifies Graph()
      ensures Valid()
      ensures Run(fed, fedSteps) == Resolve(feed, env, bind, parentNode)
      ensures feedStyle == if fed.Ok? then Some(fed.value) else old(feedStyle)
      ensures forall g :: g in Graph() ==>
                g.feedStyle == old(g.feedStyle) || FreshFeedStyle(g, env, bind, parentNode, g.feedStyle)
      decreases depth, 3
    {
      fed, fedSteps := feed.Stylesheet(env, bind, parentNode);
      if fed.Err? {
        return;
      }
      assert Valid();
      feedStyle := Some(fed.value);
      assert Valid();
    }

    /** The rest of Stylesheet once the feed is resolved and cached: the depends in order, then the template. */
    method StylesheetAfterFeed<B>(env: Env<B>, bind: B, parentNode: string, ghost before: seq<Step>)
      returns (sheet: Result<seq<Tree>>, ghost steps: seq<Step>)
      requires Valid()
      requires feedStyle == FeedStyleOf(this, env, bind, parentNode)
      modifies Reach
      ensures Valid()
      ensures Run(sheet, steps) == AfterFeed(this, env, bind, parentNode, before)
      ensures forall g :: g in Reach ==>
                g.feedStyle == old(g.feedStyle) || FreshFeedStyle(g, env, bind, parentNode, g.feedStyle)
      decreases depth, 2
    {
      var deps, depSteps := StylesheetOfDepends(env, bind, parentNode);
      steps := before + depSteps;
      if deps.Err? {
        return deps, steps;
      }
      sheet, steps := RunTemplate(env, bind, parentNode, deps.value, steps);
    }

    /**
     * Stylesheet's loop over depends: each entry resolved in order and its
     * rules appended, stopping at the first error. Only rules this one
     * reaches are touched, so its own cached feed stylesheet is kept.
     */
    method StylesheetOfDepends<B>(env: Env<B>, bind: B, parentNode: string) returns (sheet: Result<seq<Tree>>, ghost steps: seq<Step>)
      requires Valid()
      modifies Reach
      ensures Valid()
      ensures Run(sheet, steps) == ResolveDepends(this, env, bind, parentNode, |depends|)
      ensures forall g :: g in Reach ==>
                g.feedStyle == old(g.feedStyle) || FreshFeedStyle(g, env, bind, parentNode, g.feedStyle)
      decreases depth, 1
    {
      var rules: seq<Tree> := [];
      steps := [];
      for i := 0 to |depends|
        invariant Valid()
        invariant ResolveDepends(this, env, bind, parentNode, i) == Run(Ok(rules), steps)
        invariant forall g :: g in Reach ==>
                    g.feedStyle == old(g.feedStyle) || FreshFeedStyle(g, env, bind, parentNode, g.feedStyle)
      {
        var dep, depSteps := StylesheetOfDepend(env, bind, parentNode, i);
        steps := steps + depSteps;
        if dep.Err? {
          DependsErrorPersists(this, env, bind, parentNode, i + 1, |depends|);
          return dep, steps;
        }
        rules := rules + dep.value;
      }
      sheet := Ok(rules);
    }

    /** One iteration of the depends loop: the i-th entry's Stylesheet, within this rule's reach. */
    method StylesheetOfDepend<B>(env: Env<B>, bind: B, parentNode: string, i: nat)
      returns (sheet: Result<seq<Tree>>, ghost steps: seq<Step>)
      requires Valid() && i < |depends|
      modifies Reach
      ensures Valid()
      ensures Run(sheet, steps) == Resolve(depends[i], env, bind, parentNode)
      ensures forall g :: g in Reach ==>
                g.feedStyle == old(g.feedStyle) || FreshFeedStyle(g, env, bind, parentNode, g.feedStyle)
      decreases depth, 0
    {
      sheet, steps := depends[i].Stylesheet(env, bind, parentNode);
    }

    /**
     * The second half of Stylesheet: execute the template with `extend`
     * reading the cached feed stylesheet, parse the output, scope the parsed
     * rules and append them to the depends' rules.
     */
    method RunTemplate<B>(env: Env<B>, bind: B, parentNode: string, rules: seq<Tree>, ghost before: seq<Step>)
      returns (sheet: Result<seq<Tree>>, ghost steps: seq<Step>)
      requires Ranked()
      requires feedStyle == FeedStyleOf(this, env, bind, parentNode)
      ensures sheet == OwnRules(this, env, bind, parentNode, rules, before).result
      ensures steps == OwnRules(this, env, bind, parentNode, rules, before).steps
    {
      var content := env.execute(template, bind, TemplateFuncs(env.printer, feedStyle));
      steps := before + [Execute(this)];
      if content.Err? {
        return Err(content.error), steps;
      }
      var parsed := env.parse(content.value);
      steps := steps + [Parse(this)];
      if parsed.Err? {
        return Err(parsed.error), steps;
      }
      var morphed := MorphParsed(parsed.value, parentNode);
      assert morphed == MorphAll(parsed.value, parentNode);
      sheet := Ok(rules + morphed);
    }
  }

  /** style is what resolving g caches: its feed's fresh stylesheet, which exists only when that feed succeeds. */
  ghost predicate FreshFeedStyle<B>(g: Rule, env: Env<B>, bind: B, parentNode: string, style: Option<seq<Tree>>)
  {
    && FeedSucceeds(g, env, bind, parentNode)
    && style == Some(Resolve(g.feed, env, bind, parentNode).result.value)
  }

  /** g has a feed, and resolving that feed succeeds. */
  ghost predicate FeedSucceeds<B>(g: Rule, env: Env<B>, bind: B, parentNode: string)
  {
    g.Ranked() && g.feed != null && Resolve(g.feed, env, bind, parentNode).result.Ok?
  }

  /** The feed stylesheet `extend` sees during resolution: the feed's fresh stylesheet, or none without a feed. */
  ghost function FeedStyleOf<B>(r: Rule, env: Env<B>, bind: B, parentNode: string): (s: Option<seq<Tree>>)
    requires r.Ranked()
    ensures s.None? <==> r.feed == null
    ensures r.feed != null && Resolve(r.feed, env, bind, parentNode).result.Ok? ==>
              s == Some(Resolve(r.feed, env, bind, parentNode).result.value)
    decreases r.depth, 0
  {
    if r.feed == null then None
    else var fed := Resolve(r.feed, env, bind, parentNode).result;
      Some(if fed.Ok? then fed.value else [])
  }

  /** The template executed against the binding with the helpers and the given extend function, then parsed. */
  function Parsed<B>(r: Rule, env: Env<B>, bind: B, feedStyle: Option<seq<Tree>>): (res: Result<seq<Tree>>)
    ensures var content := env.execute(r.template, bind, TemplateFuncs(env.printer, feedStyle));
      && (content.Err? ==> res == Err(content.error))
      && (res.Ok? ==> content.Ok? && env.parse(content.value) == res)
  {
    var content := env.execute(r.template, bind, TemplateFuncs(env.printer, feedStyle));
    if content.Err? then Err(content.error) else env.parse(content.value)
  }

  /** The steps of running the template: execute, then parse unless execution failed. */
  ghost function TemplateSteps<B>(r: Rule, env: Env<B>, bind: B, feedStyle: Option<seq<Tree>>): seq<Step>
  {
    if env.execute(r.template, bind, TemplateFuncs(env.printer, feedStyle)).Err? then [Execute(r)]
    else [Execute(r), Parse(r)]
  }

  /** Resolution of a rule, as a function of the rule graph: the specification of Stylesheet. */
  ghost function Resolve<B>(r: Rule, env: Env<B>, bind: B, parentNode: string): (run: Run)
    requires r.Ranked()
    ensures |run.steps| > 0 && run.steps[0] == Enter(r)
    ensures run.result.Ok? ==> run.steps[|run.steps| - 1] == Parse(r)
    decreases r.depth, 3
  {
    var fed := if r.feed == null then Run(Ok([]), []) else Resolve(r.feed, env, bind, parentNode);
    if fed.result.Err? then Run(fed.result, [Enter(r)] + fed.steps)
    else AfterFeed(r, env, bind, parentNode, [Enter(r)] + fed.steps)
  }

  /** Resolution once the feed is resolved: the depends in order, then the template. */
  ghost function AfterFeed<B>(r: Rule, env: Env<B>, bind: B, parentNode: string, before: seq<Step>): (run: Run)
    requires r.Ranked()
    ensures |before| <= |run.steps| && run.steps[..|before|] == before
    ensures run.result.Ok? ==> |run.steps| >= |before| + 2 && run.steps[|run.steps| - 1] == Parse(r)
    decreases r.depth, 2
  {
    var deps := ResolveDepends(r, env, bind, parentNode, |r.depends|);
    if deps.result.Err? then Run(deps.result, before + deps.steps)
    else OwnRules(r, env, bind, parentNode, deps.result.value, before + deps.steps)
  }

  /** The last stage: run the template, parse, scope the parsed rules and put them after the depends' rules. */
  ghost function OwnRules<B>(r: Rule, env: Env<B>, bind: B, parentNode: string, rules: seq<Tree>, before: seq<Step>): (run: Run)
    requires r.Ranked()
    ensures |before| < |run.steps| && run.steps[..|before|] == before && run.steps[|before|] == Execute(r)
    ensures run.result.Ok? ==> run.steps == before + [Execute(r), Parse(r)]
    ensures run.result.Ok? ==> |rules| <= |run.result.value| && run.result.value[..|rules|] == rules
    decreases r.depth, 1
  {
    var style := FeedStyleOf(r, env, bind, parentNode);
    var parsed := Parsed(r, env, bind, style);
    var steps := before + TemplateSteps(r, env, bind, style);
    if parsed.Err? then Run(parsed, steps)
    else Run(Ok(rules + MorphAll(parsed.value, parentNode)), steps)
  }

  /** The first k depends resolved in order, stopping at the first failure. */
  ghost function ResolveDepends<B>(r: Rule, env: Env<B>, bind: B, parentNode: string, k: nat): (run: Run)
    requires r.Ranked() && k <= |r.depends|
    ensures k > 0 && run.result.Ok? ==> |run.steps| > 0 && run.steps[|run.steps| - 1] == Parse(r.depends[k - 1])
    decreases r.depth, 0, k
  {
    if k == 0 then Run(Ok([]), [])
    else
      var prev := ResolveDepends(r, env, bind, parentNode, k - 1);
      if prev.result.Err? then prev
      else
        var d := Resolve(r.depends[k - 1], env, bind, parentNode);
        Run(if d.result.Err? then d.result else Ok(prev.result.value + d.result.value), prev.steps + d.steps)
  }

  /** Once a depends entry has failed, no later entry is resolved and the error stays. */
  lemma {:induction false} DependsErrorPersists<B>(r: Rule, env: Env<B>, bind: B, parentNode: string, k: nat, m: nat)
    requires r.Ranked() && k <= m <= |r.depends|
    requires ResolveDepends(r, env, bind, parentNode, k).result.Err?
    ensures ResolveDepends(r, env, bind, parentNode, m) == ResolveDepends(r, env, bind, parentNode, k)
    decreases m
  {
    if m > k {
      DependsErrorPersists(r, env, bind, parentNode, k, m - 1);
    }
  }

  /** Whether the i-th depends entry resolves without error. */
  ghost predicate DependOk<B>(r: Rule, env: Env<B>, bind: B, parentNode: string, i: nat)
    requires r.Ranked() && i < |r.depends|
  {
    Resolve(r.depends[i], env, bind, parentNode).result.Ok?
  }

  /**
   * The reference order of the output: the rules of the first k depends
   * entries, each resolved on its own, concatenated in depends order.
   */
  ghost function DependsRules<B>(r: Rule, env: Env<B>, bind: B, parentNode: string, k: nat): seq<Tree>
    requires r.Ranked() && k <= |r.depends|
  {
    if k == 0 then []
    else
      var d := Resolve(r.depends[k - 1], env, bind, parentNode).result;
      DependsRules(r, env, bind, parentNode, k - 1) + (if d.Ok? then d.value else [])
  }

  /**
   * The first k depends succeed together or not at all: they succeed exactly
   * when each entry does on its own, and then give the entries' rules
   * concatenated in depends order.
   */
  lemma {:induction false} DependsInOrder<B>(r: Rule, env: Env<B>, bind: B, parentNode: string, k: nat)
    requires r.Ranked() && k <= |r.depends|
    ensures ResolveDepends(r, env, bind, parentNode, k).result.Ok?
            <==> forall i :: 0 <= i < k ==> DependOk(r, env, bind, parentNode, i)
    ensures ResolveDepends(r, env, bind, parentNode, k).result.Ok? ==>
            ResolveDepends(r, env, bind, parentNode, k).result.value == DependsRules(r, env, bind, parentNode, k)
    decreases k
  {
    if k > 0 {
      DependsInOrder(r, env, bind, parentNode, k - 1);
      var prev := ResolveDepends(r, env, bind, parentNode, k - 1);
      if prev.result.Err? {
        assert ResolveDepends(r, env, bind, parentNode, k) == prev;
        var j :| 0 <= j < k - 1 && !DependOk(r, env, bind, parentNode, j);
      } else if !DependOk(r, env, bind, parentNode, k - 1) {
        assert ResolveDepends(r, env, bind, parentNode, k).result.Err?;
      }
    }
  }

  /**
   * Stylesheet succeeds exactly when the feed, every depends entry, the
   * template and the parser all succeed; its rules are then the depends'
   * rules in depends order followed by this rule's own parsed rules, scoped
   * to the parent node. The feed's rules are not among them: the feed only
   * reaches the output through `extend`.
   */
  lemma StylesheetOrder<B>(r: Rule, env: Env<B>, bind: B, parentNode: string)
    requires r.Ranked()
    ensures var res := Resolve(r, env, bind, parentNode).result;
            var parsed := Parsed(r, env, bind, FeedStyleOf(r, env, bind, parentNode));
            && (res.Ok? <==>
                  && (r.feed != null ==> Resolve(r.feed, env, bind, parentNode).result.Ok?)
                  && (forall i :: 0 <= i < |r.depends| ==> DependOk(r, env, bind, parentNode, i))
                  && parsed.Ok?)
            && (res.Ok? ==>
                  res.value == DependsRules(r, env, bind, parentNode, |r.depends|) + MorphAll(parsed.value, parentNode))
  {
    DependsInOrder(r, env, bind, parentNode, |r.depends|);
    var fed := if r.feed == null then Run(Ok([]), []) else Resolve(r.feed, env, bind, parentNode);
    if fed.result.Ok? {
      var before := [Enter(r)] + fed.steps;
      assert Resolve(r, env, bind, parentNode) == AfterFeed(r, env, bind, parentNode, before);
      var deps := ResolveDepends(r, env, bind, parentNode, |r.depends|);
      if deps.result.Ok? {
        assert AfterFeed(r, env, bind, parentNode, before)
            == OwnRules(r, env, bind, parentNode, deps.result.value, before + deps.steps);
      }
    }
  }

  /** Every step of a resolution belongs to a rule of the resolved rule's graph. */
  lemma {:induction false} StepsWithinGraph<B>(r: Rule, env: Env<B>, bind: B, parentNode: string)
    requires r.Ranked()
    ensures forall s :: s in Resolve(r, env, bind, parentNode).steps ==> s.rule in r.Graph()
    decreases r.depth, 1
  {
    var fed := if r.feed == null then Run(Ok([]), []) else Resolve(r.feed, env, bind, parentNode);
    if r.feed != null {
      StepsWithinGraph(r.feed, env, bind, parentNode);
    }
    var before := [Enter(r)] + fed.steps;
    assert forall s :: s in before ==> s.rule in r.Graph();
    if fed.result.Ok? {
      assert Resolve(r, env, bind, parentNode) == AfterFeed(r, env, bind, parentNode, before);
      DependsStepsWithinGraph(r, env, bind, parentNode, |r.depends|);
      var deps := ResolveDepends(r, env, bind, parentNode, |r.depends|);
      if deps.result.Ok? {
        var style := FeedStyleOf(r, env, bind, parentNode);
        assert AfterFeed(r, env, bind, parentNode, before).steps
            == before + deps.steps + TemplateSteps(r, env, bind, style);
      }
    }
  }

  lemma {:induction false} DependsStepsWithinGraph<B>(r: Rule, env: Env<B>, bind: B, parentNode: string, k: nat)
    requires r.Ranked() && k <= |r.depends|
    ensures forall s :: s in ResolveDepends(r, env, bind, parentNode, k).steps ==> s.rule in r.Reach
    decreases r.depth, 0, k
  {
    if k > 0 {
      DependsStepsWithinGraph(r, env, bind, parentNode, k - 1);
      StepsWithinGraph(r.depends[k - 1], env, bind, parentNode);
    }
  }

  /**
   * A failed feed is reported as it is, before any depends entry is
   * resolved: the only steps are entering this rule and the feed's own, and
   * the template never runs.
   */
  lemma FeedErrorFirst<B>(r: Rule, env: Env<B>, bind: B, parentNode: string)
    requires r.Ranked() && r.feed != null
    requires Resolve(r.feed, env, bind, parentNode).result.Err?
    ensures Resolve(r, env, bind, parentNode) ==
            Run(Resolve(r.feed, env, bind, parentNode).result, [Enter(r)] + Resolve(r.feed, env, bind, parentNode).steps)
    ensures Execute(r) !in Resolve(r, env, bind, parentNode).steps
    ensures forall i :: 0 <= i < |r.depends| && r.depends[i] !in r.feed.Graph() ==>
              Enter(r.depends[i]) !in Resolve(r, env, bind, parentNode).steps
  {
    StepsWithinGraph(r.feed, env, bind, parentNode);
  }

  /** The graphs of the first k depends entries. */
  ghost function PrefixGraphs(r: Rule, k: nat): set<Rule>
    requires k <= |r.depends|
  {
    if k == 0 then {} else PrefixGraphs(r, k - 1) + r.depends[k - 1].Graph()
  }

  /**
   * The first failing depends entry decides the outcome: its error is
   * returned and the steps stop with its own.
   */
  lemma FirstDependsErrorWins<B>(r: Rule, env: Env<B>, bind: B, parentNode: string, i: nat)
    requires r.Ranked() && i < |r.depends|
    requires r.feed != null ==> Resolve(r.feed, env, bind, parentNode).result.Ok?
    requires forall j :: 0 <= j < i ==> DependOk(r, env, bind, parentNode, j)
    requires !DependOk(r, env, bind, parentNode, i)
    ensures Resolve(r, env, bind, parentNode).result == Resolve(r.depends[i], env, bind, parentNode).result
    ensures Resolve(r, env, bind, parentNode).steps ==
            [Enter(r)] + (if r.feed == null then [] else Resolve(r.feed, env, bind, parentNode).steps)
            + ResolveDepends(r, env, bind, parentNode, i + 1).steps
  {
    DependsInOrder(r, env, bind, parentNode, i);
    var prefix := ResolveDepends(r, env, bind, parentNode, i + 1);
    assert prefix.result == Resolve(r.depends[i], env, bind, parentNode).result;
    DependsErrorPersists(r, env, bind, parentNode, i + 1, |r.depends|);
    var fed := if r.feed == null then Run(Ok([]), []) else Resolve(r.feed, env, bind, parentNode);
    assert Resolve(r, env, bind, parentNode) == AfterFeed(r, env, bind, parentNode, [Enter(r)] + fed.steps);
  }

  /**
   * After the first failing depends entry nothing more runs: the template
   * is not executed, and no later entry is entered unless the feed or an
   * earlier entry already reached it.
   */
  lemma NothingRunsAfterDependsError<B>(r: Rule, env: Env<B>, bind: B, parentNode: string, i: nat)
    requires r.Ranked() && i < |r.depends|
    requires r.feed != null ==> Resolve(r.feed, env, bind, parentNode).result.Ok?
    requires forall j :: 0 <= j < i ==> DependOk(r, env, bind, parentNode, j)
    requires !DependOk(r, env, bind, parentNode, i)
    ensures Execute(r) !in Resolve(r, env, bind, parentNode).steps
    ensures forall j ::
              (&& i < j < |r.depends|
               && r.depends[j] !in PrefixGraphs(r, i + 1)
               && (r.feed != null ==> r.depends[j] !in r.feed.Graph()))
              ==> Enter(r.depends[j]) !in Resolve(r, env, bind, parentNode).steps
  {
    FirstDependsErrorWins(r, env, bind, parentNode, i);
    if r.feed != null {
      StepsWithinGraph(r.feed, env, bind, parentNode);
    }
    DependsStepsWithinPrefix(r, env, bind, parentNode, i + 1);
    assert r !in PrefixGraphs(r, i + 1) by {
      PrefixGraphsShallower(r, i + 1);
    }
  }

  /** The graphs of the depends entries lie strictly below the rule. */
  lemma {:induction false} PrefixGraphsShallower(r: Rule, k: nat)
    requires r.Ranked() && k <= |r.depends|
    ensures forall g :: g in PrefixGraphs(r, k) ==> g.depth < r.depth
  {
    if k > 0 {
      PrefixGraphsShallower(r, k - 1);
    }
  }

  /** The steps of the first k depends stay within those entries' graphs. */
  lemma {:induction false} DependsStepsWithinPrefix<B>(r: Rule, env: Env<B>, bind: B, parentNode: string, k: nat)
    requires r.Ranked() && k <= |r.depends|
    ensures forall s :: s in ResolveDepends(r, env, bind, parentNode, k).steps ==> s.rule in PrefixGraphs(r, k)
    decreases k
  {
    if k > 0 {
      DependsStepsWithinPrefix(r, env, bind, parentNode, k - 1);
      StepsWithinGraph(r.depends[k - 1], env, bind, parentNode);
    }
  }
}

# CSS rule engine of gu (`trees/css`), modelled in Dafny

A `Rule` holds three things: a CSS text template, an optional *feed* rule
and a list of *depends* rules. `Stylesheet(bind, parentNode)` resolves a
rule in five steps:

1. It resolves the feed first and caches the result in `feedStyle`. The
   template's `extend` function reads this cache.
2. It resolves every depends entry in order and collects their rules.
3. It executes the template against the binding.
4. It parses the output as CSS.
5. It scopes every parsed selector to `parentNode`: a `&` is replaced by
   the parent, and a selector starting with `:` is prefixed by it. Parsed
   rules are rewritten in place. The depends' rules come first, then the
   rule's own.

Any error aborts the call and is returned unchanged. The template also
sees three integer helpers, `add`, `multiply` and `subtract`. In the model,
`TemplateFuncs` gathers them and `extend` into the function map that
template execution receives.

The model has seven modules:

- `Helpers`: the template helpers on Go's 64-bit `int`, with two's-complement
  wrap-around written out.
- `GoStrings`: the parts of Go's `strings` package the core calls:
  `TrimSpace`, `Contains`/`Replace` with the one-character pattern `&`,
  `HasPrefix` and `Join`.
- `Douceur`: the parsed-stylesheet shape.
  - `Tree` is a rule as a value.
  - `CssRule` is the parser's mutable rule object. Its selectors live in an
    `array` so they can be rewritten in place.
  - `Build` allocates the objects for a parsed tree.
  - `Snapshot` reads an object back as a value.
- `Selectors`: `adjustName` (`AdjustName`) and `morphRule` (`MorphRule`).
  `MorphRule` is an imperative method over `CssRule` objects, proved against
  the value-level specification `MorphTree`.
- `Extension`: `extend`.
  - `ExtendOf` is its specification.
  - `Css.Rule.Extend` is the loop of the source, proved equal to it.
  - `Extender` is the function value handed to the template.
- `Css`: the `Rule` class, with `New` as its constructor and `Stylesheet`
  as a method that updates `feedStyle` in place.
  - `Resolve` is a ghost specification that gives the result of a
    resolution together with its trace of steps: enter a rule, execute its
    template, parse.
  - `Stylesheet` is proved to produce exactly that result and that trace.
    It is split into methods along the same stages as `Resolve`:
    `ResolveFeed`, `StylesheetAfterFeed`, the depends loop and
    `RunTemplate`.
  - The lemmas about `Resolve` state the ordering, short-circuit and
    confinement properties of the source.
- `Wrappers`: `Option` and `Result`.

`Stylesheet` only returns normally on a rule graph without cycles and
without nil entries, and Go does not enforce either. `New(src, nil, nil)` puts a
nil entry in depends. `New` also keeps the caller's variadic slice as
`depends`, so a caller can write the new rule into that slice afterwards
and close a cycle. The model therefore requires what Go leaves to its
callers: the graph is made of non-null rules and is acyclic. It records this
with a ghost `depth` that strictly decreases along feed and depends edges
(`Ranked`). The same ghost depth is the termination measure for the mutual
recursion of `Stylesheet`.

## Model

| member | source | states |
|---|---|---|
| Helpers.Add | trees/css/css.go:14-16 | `add` is a + b in Go's 64-bit `int`: congruent to the exact sum modulo 2^64 |
| Helpers.Multiply | trees/css/css.go:17-19 | `multiply` is a * b in Go's 64-bit `int`: congruent to the exact product modulo 2^64 |
| Helpers.Subtract | trees/css/css.go:20-22 | `subtract` takes its first argument from its second: congruent to b - a modulo 2^64 |
| Helpers.Wrap | trees/css/css.go:13-23 | Go's `int` arithmetic: the result is the one 64-bit value congruent to the exact result modulo 2^64 |
| Helpers.WrapUnique | trees/css/css.go:13-23 | two 64-bit values congruent modulo 2^64 are equal, so the wrapped result is determined |
| Helpers.WrapInRange | trees/css/css.go:13-23 | a value that fits in 64 bits is not changed by wrap-around |
| Helpers.HelpersWithoutOverflow | trees/css/css.go:14-22 | without overflow `add` is a + b, `multiply` is a * b and `subtract` is b - a (reversed operands) |
| Helpers.AddSubtractInverse | trees/css/css.go:14-22 | `add a (subtract a b) == b` for all 64-bit a and b, even across wrap-around |
| Helpers.SubtractSwapped | trees/css/css.go:20-22 | swapping the operands of `subtract` negates the result: the two results add to 0 |
| Css.TemplateFuncs | trees/css/css.go:45-47 | the template runs with `add`, `multiply` and `subtract` as the helpers above and with `extend` answering as ExtendOf of the rule's cached feed stylesheet |
| Css.Rule.constructor | trees/css/css.go:42-55 | New stores the template, the feed and the depends, with no cached feed stylesheet; the new rule is valid (acyclic, cache invariant) and its reach is the feed's graph plus the depends' graphs |
| Css.NewIsRanked | trees/css/css.go:42-43 | a rule built over ranked rules and deeper than all of them is ranked: the rule graph New builds has no cycle |
| Css.NewIsValid | trees/css/css.go:42-43 | a rule built over valid rules, without a cached feed stylesheet, is valid: no rule without a feed holds a cached feed stylesheet |
| Css.GraphsOfMember | trees/css/css.go:43 | every rule reachable through the depends list is reachable through one of its entries |
| Extension.FirstMatch | trees/css/css.go:66-70 | the index of the first feed rule whose prelude equals the item, or None exactly when no rule matches |
| Extension.ExtendOf | trees/css/css.go:59-82 | extend returns "" without a cached feed stylesheet and "" when no feed rule has the requested prelude |
| Extension.Extender | trees/css/css.go:46 | the `extend` function registered for the template answers every item as ExtendOf of the cached feed stylesheet, and answers "" for every item while there is no cache |
| Css.Rule.Extend | trees/css/css.go:59-82 | the loop with `continue` and `break` returns exactly ExtendOf of the cached feed stylesheet |
| Extension.ExtendFirstMatchWins | trees/css/css.go:66-79 | the output is the first matching rule's declarations, printed in order and joined by newlines |
| Extension.ExtendIgnoresLaterRules | trees/css/css.go:78 | once a rule matches, appending further rules to the feed stylesheet does not change the output |
| Extension.Render | trees/css/css.go:72-76 | an important declaration is printed by StringWithImportant with `true`, any other by String |
| Extension.Rendered | trees/css/css.go:71-77 | the declarations are printed one for one, in order |
| Extension.ExtendImportantDistinguished | trees/css/css.go:72-76 | an important declaration is printed through StringWithImportant and a plain one through String, so the two are told apart whenever the printers tell them apart |
| GoStrings.JoinAppend | trees/css/css.go:81 | strings.Join adds the separator and then the element for each further element |
| Css.Rule.Stylesheet | trees/css/css.go:86-126 | the result and the step trace are exactly those of Resolve; the feed's fresh stylesheet is cached in feedStyle when the feed succeeds; every other rule of the graph keeps its cache or caches its own feed's fresh stylesheet, and only when that feed succeeds; the graph stays valid |
| Css.Rule.ResolveFeed | trees/css/css.go:87-94 | the feed is resolved as Resolve says; on success its stylesheet is cached in feedStyle, on error the old cache is kept; every other rule of the graph keeps its cache or caches its own feed's fresh stylesheet |
| Css.Rule.StylesheetAfterFeed | trees/css/css.go:96-125 | once the feed is cached, the depends and the template give exactly AfterFeed; every reached rule keeps its cache or caches its feed's fresh stylesheet |
| Css.Rule.StylesheetOfDepends | trees/css/css.go:98-107 | the depends loop returns the left-to-right resolution of every entry, stopping at the first error; every reached rule keeps its cache or caches its feed's fresh stylesheet |
| Css.Rule.StylesheetOfDepend | trees/css/css.go:100 | one depends entry is resolved as Resolve says, touching only rules this one reaches, each of which keeps its cache or caches its feed's fresh stylesheet |
| Css.Resolve | trees/css/css.go:86-126 | a resolution starts by entering the rule, and a successful one ends by parsing that rule's template output |
| Css.AfterFeed | trees/css/css.go:98-125 | after the feed, the trace only grows; success ends with the rule's own parse |
| Css.ResolveDepends | trees/css/css.go:98-107 | when the first k depends entries all succeed, the last step is the parse of entry k |
| Css.OwnRules | trees/css/css.go:109-125 | the template runs right after the depends; on success the trace ends with execute then parse, and the depends' rules come first in the output |
| Css.Parsed | trees/css/css.go:109-117 | an execution error is returned unchanged and parsing is skipped; a successful result is the parser's result on the text the template produced |
| Css.FeedStyleOf | trees/css/css.go:87-110 | the cache the template sees: none exactly when the rule has no feed, and the feed's fresh stylesheet when the feed resolves; its `Some([])` value for a failing feed is never read, because the resolution returns the feed's error before the template runs |
| Css.Rule.RunTemplate | trees/css/css.go:109-125 | execute with extend bound to the cached feed stylesheet, then parse, then scope the parsed rules; the outcome is OwnRules |
| Css.StylesheetOrder | trees/css/css.go:86-126 | Stylesheet succeeds exactly when the feed, every depends entry, the template and the parser succeed; the output is then the depends' rules in depends order followed by the rule's own parsed and scoped rules |
| Css.DependsInOrder | trees/css/css.go:99-106 | the depends loop succeeds exactly when each entry does, and then returns the entries' rules concatenated in order |
| Css.DependsErrorPersists | trees/css/css.go:101-103 | once a depends entry fails, later entries are not resolved and the error is kept |
| Css.FeedErrorFirst | trees/css/css.go:87-91 | a failing feed's error is returned as it is, before any depends entry or the template runs |
| Css.FirstDependsErrorWins | trees/css/css.go:99-103 | the first failing depends entry's error is the result, and the trace stops with that entry's own steps |
| Css.NothingRunsAfterDependsError | trees/css/css.go:99-112 | after the first failing depends entry the template is not executed, and no later entry is entered unless an earlier resolution reached it |
| Css.StepsWithinGraph | trees/css/css.go:86-126 | a resolution only enters, executes or parses rules of the resolved rule's graph |
| Css.DependsStepsWithinGraph | trees/css/css.go:99-106 | the depends loop only touches rules this rule reaches |
| Css.DependsStepsWithinPrefix | trees/css/css.go:99-106 | the first k depends entries only touch rules in those entries' graphs |
| Css.PrefixGraphsShallower | trees/css/css.go:99-106 | no depends entry can reach back to the rule that lists it |
| GoStrings.TrimLeftSuffix | trees/css/css.go:131 | trimming on the left drops a prefix made only of white space, and all of it |
| GoStrings.TrimRightPrefix | trees/css/css.go:131 | trimming on the right drops a suffix made only of white space, and all of it |
| GoStrings.TrimSpaceInfix | trees/css/css.go:131 | strings.TrimSpace returns the infix between an all-white-space prefix and suffix, and it neither starts nor ends with a space |
| GoStrings.TrimSpaceIdempotent | trees/css/css.go:131 | trimming twice is trimming once |
| GoStrings.ReplaceAll | trees/css/css.go:135 | replacing every `&` leaves no `&` unless the replacement has one, and changes nothing in a string without `&` |
| GoStrings.ReplaceAllAppend | trees/css/css.go:135 | replacing distributes over concatenation |
| GoStrings.ReplaceAllLength | trees/css/css.go:135 | each replaced occurrence grows the string by the replacement's length minus one |
| GoStrings.ReplaceAllIdentity | trees/css/css.go:135 | replacing `&` by `&` gives the string back: nothing but the marker is touched |
| Selectors.AdjustName | trees/css/css.go:130-143 | a scoped selector holds `&` only if the parent scope does |
| Selectors.AdjustNamePlain | trees/css/css.go:140-141 | a selector with neither `&` nor a leading `:` comes back trimmed, whatever the parent scope |
| Selectors.AdjustNamePseudo | trees/css/css.go:137-138 | a selector starting with `:` is the parent scope followed directly by the trimmed selector |
| Selectors.AdjustNameReplacesEveryMarker | trees/css/css.go:134-135 | with `&` present every `&` and nothing else is replaced by the parent scope |
| Selectors.AdjustNameIgnoresPadding | trees/css/css.go:131 | surrounding white space never changes the scoped selector |
| Selectors.AdjustAll | trees/css/css.go:147-149 | each selector is scoped with adjustName at its own index, and the count is kept |
| Selectors.AdjustAllAppend | trees/css/css.go:147-149 | scoping a concatenation of selector lists scopes each part |
| Selectors.AdjustArray | trees/css/css.go:147-149 | the in-place loop leaves the array holding AdjustAll of its old contents |
| Selectors.AdjustSelectors | trees/css/css.go:157-159 | one rule's selectors are rewritten in place and nothing else of the rule tree changes |
| Selectors.MorphRule | trees/css/css.go:146-161 | morphRule turns the rule tree into MorphTree of its old value |
| Selectors.MorphNestedRules | trees/css/css.go:151-160 | the second loop leaves base's own selectors alone and morphs each nested rule as MorphChild says |
| Selectors.MorphNested | trees/css/css.go:152-159 | a nested at-rule is morphed recursively, any other nested rule only has its own selectors rewritten |
| Selectors.MorphTree | trees/css/css.go:146-161 | morphRule keeps the kind, prelude, declarations and the number of nested rules, and scopes each own selector with adjustName |
| Selectors.MorphChild | trees/css/css.go:151-160 | a nested rule keeps its kind, prelude and declarations and has its own selectors scoped; a nested rule that is not an at-rule keeps its nested rules unchanged |
| Selectors.MorphTreeSameShape | trees/css/css.go:146-161 | morphing changes selector text only: kinds, preludes, declarations, selector counts, nesting and order are kept |
| Selectors.MorphTreeScoped | trees/css/css.go:146-161 | morphing rewrites exactly the scoped selectors (own, nested at-rules' recursively, other nested rules' own), each with adjustName, in order |
| Selectors.MorphChildrenScoped | trees/css/css.go:151-160 | the nested rules' scoped selectors are rewritten in order |
| Selectors.MorphTreeResolvesMarkers | trees/css/css.go:146-161 | with a parent scope free of `&`, no scoped selector of the result still holds `&` |
| Selectors.MorphParsed | trees/css/css.go:119-121 | every parsed top-level rule is morphed in place, in order; the results are MorphTree of the parsed rules |
| Selectors.MorphAll | trees/css/css.go:119-123 | the rules appended after the depends' rules: one per parsed rule, in order, each the MorphTree of the parsed rule under the parent scope |
| Douceur.Build | trees/css/css.go:114 | the parser's rule objects for a parsed tree are freshly allocated and read back as that tree |
| Douceur.CssRule.constructor | trees/css/css.go:114 | a rule object over fresh selector storage reads back as the given kind, prelude, selectors, declarations and nested rules |

## Left out

- assets/assets.go and the rest of the repository are not part of this model.
- Template parsing and execution, the CSS parser and the declaration
  printers belong to Go's text/template and to the douceur library. They
  are parameters of the model: `Env.execute`, `Env.parse` and `Printer`.
  Their behaviour, for example the exact text StringWithImportant prints,
  is not modelled.
- Css.Rule.constructor: does not model template compilation or the panic
  when the template fails to compile, because the compiler is external.
  Execution errors and parse errors are modelled as `Err` results.
- Css.Rule.constructor: `template.New("css").Funcs(...)` registers
  `extend` at construction time. The model instead hands the `extend`
  function to `Env.execute` at execution time, bound to the current
  `feedStyle`. This is the same function, because nothing changes
  `feedStyle` while the template runs.
- Css.Rule.Stylesheet: returns stylesheets as values (`seq<Tree>`), not as
  pointers. Aliasing between the returned stylesheet, the feed's returned
  stylesheet and the cached `feedStyle` is not modelled; the core never
  mutates a stylesheet after returning it.
- Css.Rule.Stylesheet: requires a valid (acyclic) graph of non-null rules,
  which Go does not enforce. A nil depends entry (`New(src, nil, nil)`)
  makes Go dereference a nil pointer. A cycle, closed by writing a rule
  into the variadic slice that `New` kept as its depends, makes Go recurse
  until the stack overflows. Neither run is modelled.
- Css.Resolve: template execution (`Env.execute`) and parsing
  (`Env.parse`) are taken as deterministic functions of their inputs. A
  rule reachable along two paths is executed twice in Go, and the model
  gives both runs the same result. A binding whose methods have side
  effects or whose result changes between calls is not modelled.
- Concurrent calls to `Stylesheet` on one rule are not modelled. Calls
  are sequential.
- Helpers: Go's `int` is taken as 64 bits wide. On a 32-bit platform the
  wrap-around modulus would be 2^32.
- GoStrings: Go strings are UTF-8 byte strings. The model works on
  Unicode code points and assumes valid UTF-8 input, so invalid byte
  sequences are not modelled.
- Douceur: the parser's rule fields `Name` and `EmbedLevel` are never read
  or written by the core and are not modelled. Neither is the stylesheet
  type beyond its list of rules.
- Css.Rule.Stylesheet: for the rules it reaches, the contract says each
  one either keeps its cache or holds its own feed's fresh stylesheet. It
  does not say which of them end up refreshed, namely those the
  resolution entered and whose feed succeeded.
- Css.Rule.ResolveFeed: carries the same weaker cache clause as
  `Css.Rule.Stylesheet` above. It does not say which reached rules end up
  holding their feed's fresh stylesheet. `feedStyle` is unexported, and
  `extend` reads it only after the same call has refreshed it.
- Css.Rule.StylesheetAfterFeed: carries the same weaker cache clause as
  `Css.Rule.Stylesheet` above. It does not say which reached rules end up
  holding their feed's fresh stylesheet. `feedStyle` is unexported, and
  `extend` reads it only after the same call has refreshed it.
- Css.Rule.StylesheetOfDepends: carries the same weaker cache clause as
  `Css.Rule.Stylesheet` above. It does not say which reached rules end up
  holding their feed's fresh stylesheet. `feedStyle` is unexported, and
  `extend` reads it only after the same call has refreshed it.
- Css.Rule.StylesheetOfDepend: carries the same weaker cache clause as
  `Css.Rule.Stylesheet` above. It does not say which reached rules end up
  holding their feed's fresh stylesheet. `feedStyle` is unexported, and
  `extend` reads it only after the same call has refreshed it.
- Css.Rule.Stylesheet: the source's single method is split into
  `ResolveFeed`, `StylesheetAfterFeed`, `StylesheetOfDepends`,
  `StylesheetOfDepend` and `RunTemplate`. The steps and their order are
  the same.
- Selectors.MorphRule: the source's single function is split into methods:
  `AdjustArray` for the selector loop, `MorphNestedRules` for the loop
  over nested rules, and `MorphNested` for one nested rule. The steps and
  their order are the same.
- Rule fields `template`, `feed` and `depends`, and all fields of the
  parsed rule objects except the selector contents, are `const`, because
  the core never reassigns them.

# A verified model of a minimal term-rewriting engine

This project models `src/main.rs`, a small syntactic term-rewriting engine.

- **Expressions** are trees. A `Sym` is an atomic symbol. A `Fun` is a named function applied to an ordered list of arguments. Equality is structural. They are rendered as `name` and `name(arg, arg, ...)`, and a rule is rendered as `head = body`.
- **The matcher** walks a pattern against a value and threads one bindings map through the walk.
  - A pattern symbol is a variable. It binds on first sight and must meet an equal subterm on every later sight.
  - A pattern application needs an application with the same name and arity. Its arguments are then matched left to right, and the walk stops at the first failure.
  - A failed match returns no bindings.
- **Substitution** puts bindings into a rule body. A bound symbol becomes its binding. A function whose name is bound to a symbol is renamed. A function whose name is bound to anything else aborts the program in the source. Here that case is an explicit error value, `InvalidNameBinding`.
- **The rewriter** (`apply_all`) makes one top-down pass with one rule.
  - Where the head matches, the node is replaced by the substituted body, and that replacement is not visited again.
  - Elsewhere, the node keeps its name and each argument is rewritten on its own.

Modules, one per component:

- `Terms` (`terms.dfy`): the `Expr`, `Rule` and `Bindings` types, `Option`/`Result`, and the reference definitions the proofs use. These are `Vars` (the pattern variables), `FunNames`, and `Instantiate` (plain variable substitution).
- `Display` (`display.dfy`): the rendering function `Render`, the imperative formatter loop `Fmt`, and the proof that the rendering is unambiguous.
- `Matcher` (`matcher.dfy`) has two halves.
  - The functional specification `MatchFrom`/`MatchArgs`/`Match`.
  - The imperative `PatternMatchImpl`. It has the source's `for` loop and early `return false`, and is proved equal to the specification. `PatternMatch` wraps it.
- `Substitution` (`substitution.dfy`): `SubstituteBindings`, which returns a `Result`, and `Rename`, the reference definition of its renaming of bound function names.
- `Rewriter` (`rewriter.dfy`): `ApplyAll`. It returns a `Result` because a substitution error aborts the pass.
- `SwapExample` (`swap_example.dfy`): the worked `swap` example from `main`, plus small inputs that pin down edge cases.

Main results:

- Matching is exactly "the value is an instance of the pattern" (`MatchIffInstance`).
- The bindings a match returns are determined: they are the restriction of any witnessing substitution to the pattern's variables (`MatchDetermined`).
- Substitution fails exactly when the body renames a function to a non-symbol (`SubstituteBindings`). When it succeeds it is renaming followed by plain instantiation (`SubstituteIsRenameThenInstantiate`).
- A rule without such a renaming never aborts (`ApplyAllTotal`).
- At a redex of a rule whose body uses no head variable as a function name, the pass yields exactly the instantiated body (`ApplyAllAtRedex`).
- Where the head matches no subterm, the pass is the identity (`ApplyAllNoRedex`).

## Model

| member | source | states |
|---|---|---|
| `Display.Render` | src/main.rs:13-30 | A symbol renders as its bare name. An application renders as something at least two characters longer than its name: the name plus the parenthesised argument list. `Fmt` gives the exact text and `RenderInjective` shows it is unambiguous |
| `Display.RenderList` | src/main.rs:19-24 | No arguments render as nothing. Between consecutive arguments there is a two-character `", "` separator, so `n` arguments take at least `2(n-1)` characters |
| `Display.RenderRule` | src/main.rs:87-91 | A rule renders as the head's rendering, then ` = `, then the body's rendering, each at its own position in the text |
| `Display.Fmt` | src/main.rs:13-30 | The formatter loop writes exactly `Render(e)`: a symbol as its bare name; an application as its name, `(`, the arguments with `", "` before every one but the first, then `)` |
| `Display.RenderListAppend` | src/main.rs:19-24 | Rendering one more argument appends `", "` and that argument, or only the argument when it is the first |
| `Display.RenderPrefixFree` | src/main.rs:15-27 | A rendered identifier-named expression followed by text that neither continues a name nor opens `(` determines both the expression and the text |
| `Display.RenderInjective` | src/main.rs:13-30 | Two identifier-named expressions with the same rendering are equal |
| `Display.RenderRuleInjective` | src/main.rs:87-91 | Two identifier-named rules with the same `head = body` rendering are equal |
| `Matcher.MatchFrom` | src/main.rs:96-125 | A successful match keeps every earlier binding. The keys it adds are exactly the pattern's `Sym` names |
| `Matcher.MatchArgs` | src/main.rs:111-119 | Matching arguments position by position keeps earlier bindings. On success it binds exactly the variables of all argument patterns |
| `Matcher.Match` | src/main.rs:126-131 | A whole match attempt from empty bindings binds exactly the pattern's variables on success. `MatchIffInstance` and `MatchDetermined` state when it succeeds and with which bindings |
| `Matcher.PatternMatchImpl` | src/main.rs:96-125 | The in-place worker succeeds exactly when the specification does, leaves the bindings the specification computes, and on failure only ever adds bindings |
| `Matcher.PatternMatch` | src/main.rs:95-132 | A whole match attempt starts from empty bindings and returns the specification's result: `None` on failure, never partial bindings |
| `Matcher.MatchSound` | src/main.rs:95-132 | On success the bound keys are exactly the pattern's variables and the pattern instantiated with them is the value, so every occurrence of a variable faces its first binding |
| `Matcher.MatchDetermined` | src/main.rs:97-124 | If some substitution turns the pattern into the value, the match succeeds with exactly that substitution restricted to the pattern's variables |
| `Matcher.MatchIffInstance` | src/main.rs:95-132 | A match succeeds if and only if the value is an instance of the pattern |
| `Matcher.RepeatedVariableAgrees` | src/main.rs:100-105 | A variable repeated in a pattern matches only when its positions face structurally equal arguments |
| `Matcher.AppPatternShape` | src/main.rs:111-123 | An application pattern matches only an application of the same name and arity, argument by argument, and never a symbol |
| `Matcher.SymPatternBinds` | src/main.rs:106-109 | A symbol pattern always matches on empty bindings, binding itself to the whole value |
| `Substitution.SubstituteBindings` | src/main.rs:38-62 | Substitution succeeds exactly when every bound function name is bound to a symbol. Its error names a bound function of the expression and the non-symbol it is bound to |
| `Substitution.SubstituteArgs` | src/main.rs:53-56 | Substituting an argument list succeeds exactly when every bound function name in it is bound to a symbol, keeps its length, and reports an offending binding on error |
| `Substitution.SubstituteFun` | src/main.rs:47-57 | On an application: the argument count is kept and each argument is substituted on its own. The name changes only when it is bound, and then to the bound symbol's name |
| `Substitution.SubstituteIsInstantiate` | src/main.rs:38-62 | With no bound function names, substitution is plain variable instantiation: a bound symbol becomes its binding and nothing else changes |
| `Substitution.SubstituteIsRenameThenInstantiate` | src/main.rs:38-62 | Whenever substitution succeeds, its result is the reference renaming of bound function names to their symbols followed by the reference instantiation of the variables |
| `Substitution.SubstituteUnbound` | src/main.rs:39-50 | Substitution returns the expression unchanged when none of its names is bound |
| `Substitution.SubstituteEmpty` | src/main.rs:38-62 | Empty bindings change nothing |
| `Rewriter.ApplyAll` | src/main.rs:66-84 | Where the head matches, the result is an error exactly when the body would rename a function to a compound term. An unmatched symbol is returned unchanged. An unmatched application keeps its name and arity |
| `Rewriter.ApplyAllArgs` | src/main.rs:73-78 | Rewriting the arguments succeeds exactly when each argument's own rewrite does. The result keeps the count, with each argument rewritten independently |
| `Rewriter.ApplyAllAtMatch` | src/main.rs:67-69 | Where the head matches, the result is the body under that match's bindings. It is an error exactly when the body would rename a function to a compound term |
| `Rewriter.ApplyAllAtRedex` | src/main.rs:67-69 | At an instance of a well-formed rule's head, the result is the body instantiated with the redex's bindings, with no further rewriting of that result |
| `Rewriter.ApplyAllNoMatchSym` | src/main.rs:72 | An unmatched symbol is returned unchanged |
| `Rewriter.ApplyAllNoMatchFun` | src/main.rs:73-79 | An unmatched application keeps its name and arity, and each argument is rewritten independently. It fails exactly when an argument's rewrite fails |
| `Rewriter.ApplyAllNoRedex` | src/main.rs:70-79 | If the head matches no subterm, the output equals the input |
| `Rewriter.ApplyAllTotal` | src/main.rs:66-84 | A rule whose body uses no head variable as a function name never aborts the pass |
| `SwapExample.SwapAtRedex` | src/main.rs:140-152 | The swap rule turns `swap(pair(x, y))` into `pair(y, x)` for any `x`, `y` |
| `SwapExample.SwapRewritesBothRedexes` | src/main.rs:154-182 | The swap rule applied to `foo(swap(pair(f(a), g(b))), swap(pair(q(c), z(d))))` gives `foo(pair(g(b), f(a)), pair(z(d), q(c)))` |
| `SwapExample.SwapRendering` | src/main.rs:180 | The swap rule renders as `swap(pair(a, b)) = pair(b, a)` |
| `SwapExample.InputRendering` | src/main.rs:181 | The input expression renders as `foo(swap(pair(f(a), g(b))), swap(pair(q(c), z(d))))` |
| `SwapExample.SwapResultRendering` | src/main.rs:182 | The rewritten expression renders as `foo(pair(g(b), f(a)), pair(z(d), q(c)))` |
| `SwapExample.NullaryRendering` | src/main.rs:18-25 | An application with no arguments renders as its name followed by `()`, whatever the name |
| `SwapExample.SinglePassOnly` | src/main.rs:67-69 | On `swap(pair(swap(pair(a, b)), c))` only the outer redex is rewritten; the inner `swap` in the replacement survives |
| `SwapExample.RepeatedVariableExample` | src/main.rs:100-105 | `f(X, X)` matches `f(a, a)` with `{X: a}` and does not match `f(a, b)` |
| `SwapExample.NameAndArityExample` | src/main.rs:111-123 | `f(X)` matches neither `g(X)` nor `f(X, Y)` |
| `SwapExample.NoRedexExample` | src/main.rs:70-79 | The swap rule leaves `bar(c)` unchanged |
| `SwapExample.RenamingExample` | src/main.rs:47-52 | Rule `h(F) = F(c)` renames on `h(k)`, giving `k(c)`. On `h(g(a))` it reports the invalid binding of `F` to `g(a)` |

## Left out

- `main` (src/main.rs:134-183) builds example trees and prints them to the console. The printing is I/O and is left out. Its data and the three lines it prints (the rule, the input and the result) are kept as the lemmas `SwapRendering`, `InputRendering` and `SwapResultRendering` of `SwapExample`, with the rewrite itself in `SwapRewritesBothRedexes`.
- The formatter's `fmt::Result` plumbing is left out. A formatter error is an I/O failure, so rendering is a pure `string` function. `Fmt` mirrors the argument loop.
- `Display for Rule` is a single `write!` of `head = body`. It is modelled only by the function `RenderRule` and its injectivity lemma, with no separate method.
- `HashMap` hashing and iteration order are left out. Bindings are a finite `map`.
- The `panic!` at src/main.rs:51 is an `Err(InvalidNameBinding(name, value))` result, not a process abort. `ApplyAll` propagates the first such error in left-to-right, outside-in order. That is the point where the source would abort.
- The `unreachable!()` arm at src/main.rs:80 is dead code because the match on `Expr` is already exhaustive. It is left out.
- A lexer and parser for the textual rule syntax do not exist in src/main.rs, so they are not part of this model. In their place, the rendering is proved injective on identifier-named trees. This is the parser-free form of "the rendering can be read back".
- The engine accepts any string as a name. `Display.RenderInjective`, `Display.RenderRuleInjective` and `Display.RenderPrefixFree` assume names are non-empty runs of `[A-Za-z0-9_]`. Without that assumption the rendering is ambiguous, for example for a symbol named `f(a)`.
- `Matcher.PatternMatchImpl`: on failure, it only states that the partial bindings extend the input bindings. It does not state which of them were added, because the source discards them.
- Recursion depth and stack overflow on deep trees are left out.

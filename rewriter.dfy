/** One top-down rewriting pass with a single rule: where the head matches,
    the node is replaced by the substituted body and not visited again;
    elsewhere the node keeps its name and every argument is rewritten on
    its own. */
module Rewriter {
  import opened Terms
  import opened Matcher
  import opened Substitution

  /** Where the head matches, the substituted body, an error exactly when
      the body renames a function to a compound term; elsewhere a symbol
      is kept and an application keeps its name and arity. */
  function ApplyAll(rule: Rule, e: Expr): (r: Result<Expr>)
    ensures Match(rule.head, e).Some? ==> (r.Ok? <==> Renamable(Match(rule.head, e).value, rule.body))
    ensures Match(rule.head, e).None? && e.Sym? ==> r == Ok(e)
    ensures Match(rule.head, e).None? && e.Fun? && r.Ok? ==>
      r.value.Fun? && r.value.name == e.name && |r.value.args| == |e.args|
    decreases e, 1
  {
    match Match(rule.head, e)
    case Some(b) => SubstituteBindings(b, rule.body)
    case None =>
      match e
      case Sym(_) => Ok(e)
      case Fun(name, args) =>
        match ApplyAllArgs(rule, args)
        case Err(err) => Err(err)
        case Ok(newArgs) => Ok(Fun(name, newArgs))
  }

  /** Rewrites each argument independently, left to right; the first error
      aborts the pass. */
  function ApplyAllArgs(rule: Rule, args: seq<Expr>): (r: Result<seq<Expr>>)
    ensures r.Ok? <==> forall i :: 0 <= i < |args| ==> ApplyAll(rule, args[i]).Ok?
    ensures r.Ok? ==> |r.value| == |args|
    ensures r.Ok? ==> forall i :: 0 <= i < |args| ==> ApplyAll(rule, args[i]) == Ok(r.value[i])
    decreases args, 0
  {
    if args == [] then Ok([])
    else
      match ApplyAll(rule, args[0])
      case Err(err) => Err(err)
      case Ok(a) =>
        match ApplyAllArgs(rule, args[1..])
        case Err(err) => Err(err)
        case Ok(rest) => Ok([a] + rest)
  }

  /** Where the head matches the whole expression, the result is the
      body under the match's bindings, an error exactly when the body
      renames a function to a compound term. */
  lemma ApplyAllAtMatch(rule: Rule, e: Expr)
    requires Match(rule.head, e).Some?
    ensures ApplyAll(rule, e) == SubstituteBindings(Match(rule.head, e).value, rule.body)
    ensures ApplyAll(rule, e).Ok? <==> Renamable(Match(rule.head, e).value, rule.body)
  {
  }

  /** An unmatched symbol is returned unchanged. */
  lemma ApplyAllNoMatchSym(rule: Rule, x: string)
    requires Match(rule.head, Sym(x)).None?
    ensures ApplyAll(rule, Sym(x)) == Ok(Sym(x))
  {
  }

  /** The head matches no subterm of `e`. */
  predicate NoRedex(head: Expr, e: Expr)
    decreases e
  {
    Match(head, e).None? &&
    match e
    case Sym(_) => true
    case Fun(_, args) => forall i :: 0 <= i < |args| ==> NoRedex(head, args[i])
  }

  /** A rule whose head matches no subterm leaves the expression unchanged. */
  lemma {:induction false} ApplyAllNoRedex(rule: Rule, e: Expr)
    requires NoRedex(rule.head, e)
    ensures ApplyAll(rule, e) == Ok(e)
    decreases e, 1
  {
    match e
    case Sym(_) =>
    case Fun(name, args) =>
      ApplyAllArgsNoRedex(rule, args);
  }

  lemma {:induction false} ApplyAllArgsNoRedex(rule: Rule, args: seq<Expr>)
    requires forall i :: 0 <= i < |args| ==> NoRedex(rule.head, args[i])
    ensures ApplyAllArgs(rule, args) == Ok(args)
    decreases args, 0
  {
    if args != [] {
      ApplyAllNoRedex(rule, args[0]);
      ApplyAllArgsNoRedex(rule, args[1..]);
      assert [args[0]] + args[1..] == args;
    }
  }

  /** Where the head does not match an application, the result keeps the
      node's name and arity and each argument is the argument rewritten on
      its own; the pass fails exactly when one of the arguments does. */
  lemma ApplyAllNoMatchFun(rule: Rule, f: string, args: seq<Expr>)
    requires Match(rule.head, Fun(f, args)).None?
    ensures ApplyAll(rule, Fun(f, args)).Ok? <==>
      forall i :: 0 <= i < |args| ==> ApplyAll(rule, args[i]).Ok?
    ensures ApplyAll(rule, Fun(f, args)).Ok? ==>
      var r := ApplyAll(rule, Fun(f, args)).value;
      r.Fun? && r.name == f && |r.args| == |args| &&
      forall i :: 0 <= i < |args| ==> ApplyAll(rule, args[i]) == Ok(r.args[i])
  {
  }

  /** A rule none of whose body function names is a head variable is never
      asked to rename a function to a compound term. */
  predicate WellFormed(rule: Rule)
  {
    FunNames(rule.body) !! Vars(rule.head)
  }

  /** At a redex of a well-formed rule, the pass yields the body with the
      head's variables instantiated as the redex dictates, and does not
      rewrite that result any further (even if it holds new redexes). */
  lemma ApplyAllAtRedex(rule: Rule, s: Bindings)
    requires WellFormed(rule)
    requires Vars(rule.head) <= s.Keys
    ensures ApplyAll(rule, Instantiate(s, rule.head)) ==
      Ok(Instantiate(Restrict(s, Vars(rule.head)), rule.body))
  {
    var b := Restrict(s, Vars(rule.head));
    MatchDetermined(rule.head, Instantiate(s, rule.head), s);
    SubstituteIsInstantiate(b, rule.body);
  }

  /** A well-formed rule never aborts the pass. */
  lemma {:induction false} ApplyAllTotal(rule: Rule, e: Expr)
    requires WellFormed(rule)
    ensures ApplyAll(rule, e).Ok?
    decreases e, 1
  {
    match Match(rule.head, e) {
      case Some(b) =>
        MatchSound(rule.head, e);
        SubstituteIsInstantiate(b, rule.body);
      case None =>
        match e {
          case Sym(_) =>
          case Fun(name, args) =>
            forall i | 0 <= i < |args|
              ensures ApplyAll(rule, args[i]).Ok?
            {
              ApplyAllTotal(rule, args[i]);
            }
        }
    }
  }
}

/** Substitution of bindings into a rule body. A bound symbol becomes its
    binding; a function whose name is bound to a symbol is renamed; a
    function whose name is bound to anything else is the fatal case,
    reported here as an error value. */
module Substitution {
  import opened Terms

  /** Every function name of `e` that `b` binds is bound to a symbol. */
  predicate Renamable(b: Bindings, e: Expr)
  {
    forall f :: f in FunNames(e) && f in b ==> b[f].Sym?
  }

  predicate RenamableList(b: Bindings, args: seq<Expr>)
  {
    forall f :: f in FunNamesList(args) && f in b ==> b[f].Sym?
  }

  /** An error names a function of `e` that `b` binds to a non-symbol. */
  predicate Blames(b: Bindings, e: Error, names: set<string>)
  {
    e.name in names && e.name in b && b[e.name] == e.value && !e.value.Sym?
  }

  /** Substitutes `b` into `e`. The function name is looked up before the
      arguments are visited, and the arguments left to right, so the error
      reported is the first offending name in that order. */
  function SubstituteBindings(b: Bindings, e: Expr): (r: Result<Expr>)
    ensures r.Ok? <==> Renamable(b, e)
    ensures r.Err? ==> Blames(b, r.error, FunNames(e))
    decreases e, 1
  {
    match e
    case Sym(x) => if x in b then Ok(b[x]) else Ok(e)
    case Fun(f, args) =>
      if f in b && !b[f].Sym? then Err(InvalidNameBinding(f, b[f]))
      else
        var newName := if f in b then b[f].name else f;
        match SubstituteArgs(b, args)
        case Err(err) => Err(err)
        case Ok(newArgs) => Ok(Fun(newName, newArgs))
  }

  function SubstituteArgs(b: Bindings, args: seq<Expr>): (r: Result<seq<Expr>>)
    ensures r.Ok? <==> RenamableList(b, args)
    ensures r.Err? ==> Blames(b, r.error, FunNamesList(args))
    ensures r.Ok? ==> |r.value| == |args|
    decreases args, 0
  {
    if args == [] then Ok([])
    else
      match SubstituteBindings(b, args[0])
      case Err(err) => Err(err)
      case Ok(a) =>
        match SubstituteArgs(b, args[1..])
        case Err(err) => Err(err)
        case Ok(rest) => Ok([a] + rest)
  }

  /** On an application, substitution keeps the argument count, substitutes
      each argument on its own, and changes the name only when the name is
      bound (necessarily to a symbol, or the result is an error). */
  lemma {:induction false} SubstituteFun(b: Bindings, f: string, args: seq<Expr>)
    requires SubstituteBindings(b, Fun(f, args)).Ok?
    ensures var r := SubstituteBindings(b, Fun(f, args)).value;
      && r.Fun? && |r.args| == |args|
      && (f in b ==> b[f].Sym? && r.name == b[f].name)
      && (f !in b ==> r.name == f)
      && forall i :: 0 <= i < |args| ==> SubstituteBindings(b, args[i]) == Ok(r.args[i])
  {
    SubstituteArgsAt(b, args);
  }

  lemma {:induction false} SubstituteArgsAt(b: Bindings, args: seq<Expr>)
    requires SubstituteArgs(b, args).Ok?
    ensures forall i :: 0 <= i < |args| ==> SubstituteBindings(b, args[i]) == Ok(SubstituteArgs(b, args).value[i])
    decreases args
  {
    if args != [] {
      SubstituteArgsAt(b, args[1..]);
    }
  }

  /** With no bound function names, substitution is the reference
      instantiation: bound symbols become their bindings, nothing else
      changes. */
  lemma {:induction false} SubstituteIsInstantiate(b: Bindings, e: Expr)
    requires FunNames(e) !! b.Keys
    ensures SubstituteBindings(b, e) == Ok(Instantiate(b, e))
    decreases e, 1
  {
    match e
    case Sym(x) =>
    case Fun(f, args) =>
      SubstituteArgsIsInstantiate(b, args);
  }

  lemma {:induction false} SubstituteArgsIsInstantiate(b: Bindings, args: seq<Expr>)
    requires FunNamesList(args) !! b.Keys
    ensures SubstituteArgs(b, args) == Ok(InstantiateList(b, args))
    decreases args, 0
  {
    if args != [] {
      SubstituteIsInstantiate(b, args[0]);
      SubstituteArgsIsInstantiate(b, args[1..]);
    }
  }

  /** Reference definition of the renaming half of substitution: every
      function name bound to a symbol becomes that symbol's name, and
      nothing else changes. */
  function Rename(b: Bindings, e: Expr): Expr
    decreases e, 1
  {
    match e
    case Sym(_) => e
    case Fun(f, args) =>
      Fun(if f in b && b[f].Sym? then b[f].name else f, RenameList(b, args))
  }

  function RenameList(b: Bindings, args: seq<Expr>): (r: seq<Expr>)
    ensures |r| == |args|
    ensures forall i :: 0 <= i < |args| ==> r[i] == Rename(b, args[i])
    decreases args, 0
  {
    if args == [] then [] else [Rename(b, args[0])] + RenameList(b, args[1..])
  }

  /** Whenever substitution succeeds, it is renaming followed by the
      reference instantiation of the variables. */
  lemma {:induction false} SubstituteIsRenameThenInstantiate(b: Bindings, e: Expr)
    requires Renamable(b, e)
    ensures SubstituteBindings(b, e) == Ok(Instantiate(b, Rename(b, e)))
    decreases e, 1
  {
    match e
    case Sym(x) =>
    case Fun(f, args) =>
      assert RenamableList(b, args);
      SubstituteArgsIsRenameThenInstantiate(b, args);
  }

  lemma {:induction false} SubstituteArgsIsRenameThenInstantiate(b: Bindings, args: seq<Expr>)
    requires RenamableList(b, args)
    ensures SubstituteArgs(b, args) == Ok(InstantiateList(b, RenameList(b, args)))
    decreases args, 0
  {
    if args != [] {
      assert Renamable(b, args[0]) && RenamableList(b, args[1..]);
      SubstituteIsRenameThenInstantiate(b, args[0]);
      SubstituteArgsIsRenameThenInstantiate(b, args[1..]);
      assert RenameList(b, args)[1..] == RenameList(b, args[1..]);
    }
  }

  /** Substitution leaves `e` unchanged when it binds none of the names in `e`. */
  lemma {:induction false} SubstituteUnbound(b: Bindings, e: Expr)
    requires (Vars(e) + FunNames(e)) !! b.Keys
    ensures SubstituteBindings(b, e) == Ok(e)
    decreases e, 1
  {
    match e
    case Sym(x) =>
    case Fun(f, args) =>
      SubstituteArgsUnbound(b, args);
  }

  lemma {:induction false} SubstituteArgsUnbound(b: Bindings, args: seq<Expr>)
    requires (VarsList(args) + FunNamesList(args)) !! b.Keys
    ensures SubstituteArgs(b, args) == Ok(args)
    decreases args, 0
  {
    if args != [] {
      SubstituteUnbound(b, args[0]);
      SubstituteArgsUnbound(b, args[1..]);
      assert [args[0]] + args[1..] == args;
    }
  }

  /** Empty bindings change nothing. */
  lemma SubstituteEmpty(e: Expr)
    ensures SubstituteBindings(map[], e) == Ok(e)
  {
    SubstituteUnbound(map[], e);
  }
}

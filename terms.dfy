/** The expression model of the rewriting engine: symbolic trees, rules,
    bindings, and the reference definitions the other modules are proved
    against. */
module Terms {

  /** A symbolic expression: an atomic symbol or a named function applied
      to an ordered list of arguments. Equality is structural. */
  datatype Expr = Sym(name: string) | Fun(name: string, args: seq<Expr>)

  /** A rewrite rule: a head pattern and the body that replaces a match. */
  datatype Rule = Rule(head: Expr, body: Expr)

  /** Variable name to the subterm it was bound to. */
  type Bindings = map<string, Expr>

  datatype Option<T> = None | Some(value: T)

  /** The one abnormal outcome of substitution: a function name bound to
      something other than a symbol. */
  datatype Error = InvalidNameBinding(name: string, value: Expr)

  datatype Result<T> = Ok(value: T) | Err(error: Error)

  /** The names of the `Sym` nodes of `e`; when `e` is a pattern, its variables. */
  function Vars(e: Expr): set<string>
    decreases e, 1
  {
    match e
    case Sym(x) => {x}
    case Fun(_, args) => VarsList(args)
  }

  function VarsList(args: seq<Expr>): set<string>
    decreases args, 0
  {
    if args == [] then {} else Vars(args[0]) + VarsList(args[1..])
  }

  /** The names of the `Fun` nodes of `e`. */
  function FunNames(e: Expr): set<string>
    decreases e, 1
  {
    match e
    case Sym(_) => {}
    case Fun(f, args) => {f} + FunNamesList(args)
  }

  function FunNamesList(args: seq<Expr>): set<string>
    decreases args, 0
  {
    if args == [] then {} else FunNames(args[0]) + FunNamesList(args[1..])
  }

  /** Reference definition of a variable substitution: every `Sym` bound
      in `s` is replaced by its binding, and nothing else changes. */
  function Instantiate(s: Bindings, e: Expr): Expr
    decreases e, 1
  {
    match e
    case Sym(x) => if x in s then s[x] else e
    case Fun(f, args) => Fun(f, InstantiateList(s, args))
  }

  function InstantiateList(s: Bindings, args: seq<Expr>): (r: seq<Expr>)
    ensures |r| == |args|
    ensures forall i :: 0 <= i < |args| ==> r[i] == Instantiate(s, args[i])
    decreases args, 0
  {
    if args == [] then [] else [Instantiate(s, args[0])] + InstantiateList(s, args[1..])
  }

  /** `b'` keeps every binding of `b` and may add new ones. */
  predicate Extends(b: Bindings, b': Bindings)
  {
    b.Keys <= b'.Keys && forall k :: k in b ==> b'[k] == b[k]
  }

  /** The part of `s` whose keys lie in `keys`. */
  function Restrict(s: Bindings, keys: set<string>): (r: Bindings)
    ensures r.Keys == s.Keys * keys
    ensures forall k :: k in r ==> r[k] == s[k]
  {
    map k | k in s && k in keys :: s[k]
  }

  /** An instance depends only on the bindings of the variables that occur. */
  lemma {:induction false} InstantiateAgree(s: Bindings, t: Bindings, e: Expr)
    requires forall x :: x in Vars(e) ==> (x in s <==> x in t)
    requires forall x :: x in Vars(e) && x in s ==> s[x] == t[x]
    ensures Instantiate(s, e) == Instantiate(t, e)
    decreases e, 1
  {
    match e
    case Sym(x) =>
    case Fun(f, args) => InstantiateListAgree(s, t, args);
  }

  lemma {:induction false} InstantiateListAgree(s: Bindings, t: Bindings, args: seq<Expr>)
    requires forall x :: x in VarsList(args) ==> (x in s <==> x in t)
    requires forall x :: x in VarsList(args) && x in s ==> s[x] == t[x]
    ensures InstantiateList(s, args) == InstantiateList(t, args)
    decreases args, 0
  {
    if args != [] {
      InstantiateAgree(s, t, args[0]);
      InstantiateListAgree(s, t, args[1..]);
    }
  }

  /** Every variable of an element occurs in the list. */
  lemma {:induction false} VarsListAt(args: seq<Expr>, i: int)
    requires 0 <= i < |args|
    ensures Vars(args[i]) <= VarsList(args)
  {
    if i > 0 {
      VarsListAt(args[1..], i - 1);
    }
  }
}

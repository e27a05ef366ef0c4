/** The pattern matcher: a pattern's `Sym` nodes are variables, its `Fun`
    nodes must meet a `Fun` of the same name and arity. One bindings map is
    threaded through the whole walk. */
module Matcher {
  import opened Terms

  /** Matching `p` against `v`, starting from the bindings `b` made so far.
      A variable binds on first sight and must meet an equal subterm on
      every later sight. */
  function MatchFrom(p: Expr, v: Expr, b: Bindings): (r: Option<Bindings>)
    ensures r.Some? ==> Extends(b, r.value) && r.value.Keys == b.Keys + Vars(p)
    decreases p, 1
  {
    match p
    case Sym(x) =>
      if x in b then (if b[x] == v then Some(b) else None)
      else Some(b[x := v])
    case Fun(f, ps) =>
      if v.Fun? && v.name == f && |ps| == |v.args| then MatchArgs(ps, v.args, b)
      else None
  }

  /** Matching argument lists position by position, stopping at the first
      position that fails. */
  function MatchArgs(ps: seq<Expr>, vs: seq<Expr>, b: Bindings): (r: Option<Bindings>)
    requires |ps| == |vs|
    ensures r.Some? ==> Extends(b, r.value) && r.value.Keys == b.Keys + VarsList(ps)
    decreases ps, 0
  {
    if ps == [] then Some(b)
    else
      match MatchFrom(ps[0], vs[0], b)
      case None => None
      case Some(b1) => MatchArgs(ps[1..], vs[1..], b1)
  }

  /** A whole match attempt: fresh bindings, nothing kept on failure. */
  function Match(p: Expr, v: Expr): (r: Option<Bindings>)
    ensures r.Some? ==> r.value.Keys == Vars(p)
  {
    MatchFrom(p, v, map[])
  }

  /** The recursive worker: `bindings` is updated in place (returned as
      `bindings'`); on failure it may hold partial bindings, which the
      caller discards. */
  method PatternMatchImpl(pattern: Expr, value: Expr, bindings: Bindings)
    returns (ok: bool, bindings': Bindings)
    ensures ok <==> MatchFrom(pattern, value, bindings).Some?
    ensures ok ==> bindings' == MatchFrom(pattern, value, bindings).value
    ensures Extends(bindings, bindings')
    decreases pattern
  {
    match pattern {
      case Sym(name) =>
        bindings' := bindings;
        if name in bindings {
          ok := bindings[name] == value;
        } else {
          bindings' := bindings[name := value];
          ok := true;
        }
      case Fun(name1, args1) =>
        bindings' := bindings;
        if value.Fun? && name1 == value.name && |args1| == |value.args| {
          var args2 := value.args;
          for i := 0 to |args1|
            invariant Extends(bindings, bindings')
            invariant MatchArgs(args1[i..], args2[i..], bindings') == MatchArgs(args1, args2, bindings)
          {
            assert args1[i..][1..] == args1[i + 1..] && args2[i..][1..] == args2[i + 1..];
            var sub;
            sub, bindings' := PatternMatchImpl(args1[i], args2[i], bindings');
            if !sub {
              ok := false;
              return;
            }
          }
          ok := true;
        } else {
          ok := false;
        }
    }
  }

  /** Runs the worker on empty bindings; `None` on failure, never partial
      bindings. */
  method PatternMatch(pattern: Expr, value: Expr) returns (r: Option<Bindings>)
    ensures r == Match(pattern, value)
  {
    var ok, bindings := PatternMatchImpl(pattern, value, map[]);
    if ok {
      r := Some(bindings);
    } else {
      r := None;
    }
  }

  // ---------------------------------------------------------------------
  // Soundness: a successful match makes the pattern equal to the value.

  lemma {:induction false} MatchFromSound(p: Expr, v: Expr, b: Bindings)
    requires MatchFrom(p, v, b).Some?
    ensures Instantiate(MatchFrom(p, v, b).value, p) == v
    decreases p, 1
  {
    match p
    case Sym(x) =>
    case Fun(f, ps) =>
      MatchArgsSound(ps, v.args, b);
  }

  lemma {:induction false} MatchArgsSound(ps: seq<Expr>, vs: seq<Expr>, b: Bindings)
    requires |ps| == |vs|
    requires MatchArgs(ps, vs, b).Some?
    ensures InstantiateList(MatchArgs(ps, vs, b).value, ps) == vs
    decreases ps, 0
  {
    if ps != [] {
      var b1 := MatchFrom(ps[0], vs[0], b).value;
      var r := MatchArgs(ps, vs, b).value;
      MatchFromSound(ps[0], vs[0], b);
      MatchArgsSound(ps[1..], vs[1..], b1);
      InstantiateAgree(b1, r, ps[0]);
      assert InstantiateList(r, ps) == [Instantiate(r, ps[0])] + InstantiateList(r, ps[1..]);
      assert vs == [vs[0]] + vs[1..];
    }
  }

  // ---------------------------------------------------------------------
  // Completeness: if some substitution turns the pattern into the value,
  // the match succeeds and its bindings are that substitution on the
  // pattern's variables.

  /** `b` agrees with `s` on the variables in `keys` that `b` binds. */
  predicate Compatible(b: Bindings, s: Bindings, keys: set<string>)
  {
    forall k :: k in b && k in keys ==> k in s && b[k] == s[k]
  }

  lemma {:induction false} MatchFromComplete(p: Expr, v: Expr, b: Bindings, s: Bindings)
    requires Vars(p) <= s.Keys && Instantiate(s, p) == v
    requires Compatible(b, s, Vars(p))
    ensures MatchFrom(p, v, b) == Some(Restrict(s, Vars(p)) + b)
    decreases p, 1
  {
    match p
    case Sym(x) =>
      assert Restrict(s, Vars(p)) == map[x := s[x]];
      if x in b {
        assert Restrict(s, Vars(p)) + b == b;
      } else {
        assert Restrict(s, Vars(p)) + b == b[x := v];
      }
    case Fun(f, ps) =>
      MatchArgsComplete(ps, v.args, b, s);
  }

  lemma {:induction false} MatchArgsComplete(ps: seq<Expr>, vs: seq<Expr>, b: Bindings, s: Bindings)
    requires VarsList(ps) <= s.Keys && InstantiateList(s, ps) == vs
    requires Compatible(b, s, VarsList(ps))
    ensures MatchArgs(ps, vs, b) == Some(Restrict(s, VarsList(ps)) + b)
    decreases ps, 0
  {
    if ps == [] {
      assert Restrict(s, VarsList(ps)) + b == b;
    } else {
      var v0, rest := Vars(ps[0]), VarsList(ps[1..]);
      assert VarsList(ps) == v0 + rest;
      assert Compatible(b, s, v0);
      MatchFromComplete(ps[0], vs[0], b, s);
      var b1 := Restrict(s, v0) + b;
      CompatibleAfterBinding(b, s, v0, rest);
      assert InstantiateList(s, ps[1..]) == vs[1..];
      MatchArgsComplete(ps[1..], vs[1..], b1, s);
      RestrictUnion(s, rest, v0, b);
    }
  }

  /** Binding the variables `a` as `s` does keeps `b` compatible with `s`. */
  lemma CompatibleAfterBinding(b: Bindings, s: Bindings, a: set<string>, c: set<string>)
    requires Compatible(b, s, a + c)
    ensures Compatible(Restrict(s, a) + b, s, c)
  {
  }

  lemma RestrictUnion(s: Bindings, a: set<string>, c: set<string>, b: Bindings)
    ensures Restrict(s, a) + (Restrict(s, c) + b) == Restrict(s, c + a) + b
  {
  }

  // ---------------------------------------------------------------------
  // The properties of a whole match attempt.

  /** On success the bound keys are exactly the pattern's variables and
      the pattern instantiated by the bindings is the value; so every
      occurrence of a variable faces the subterm bound at its first
      occurrence. */
  lemma MatchSound(p: Expr, v: Expr)
    requires Match(p, v).Some?
    ensures Match(p, v).value.Keys == Vars(p)
    ensures Instantiate(Match(p, v).value, p) == v
  {
    MatchFromSound(p, v, map[]);
  }

  /** The result of a match is determined: whenever some substitution
      turns the pattern into the value, the match succeeds with exactly
      that substitution's bindings of the pattern's variables. */
  lemma MatchDetermined(p: Expr, v: Expr, s: Bindings)
    requires Vars(p) <= s.Keys && Instantiate(s, p) == v
    ensures Match(p, v) == Some(Restrict(s, Vars(p)))
  {
    MatchFromComplete(p, v, map[], s);
    assert Restrict(s, Vars(p)) + map[] == Restrict(s, Vars(p));
  }

  /** A match succeeds exactly when the value is an instance of the pattern. */
  lemma MatchIffInstance(p: Expr, v: Expr)
    ensures Match(p, v).Some? <==> exists s: Bindings :: Vars(p) <= s.Keys && Instantiate(s, p) == v
  {
    if Match(p, v).Some? {
      MatchSound(p, v);
      var s := Match(p, v).value;
      assert Vars(p) <= s.Keys && Instantiate(s, p) == v;
    }
    if s: Bindings :| Vars(p) <= s.Keys && Instantiate(s, p) == v {
      MatchDetermined(p, v, s);
    }
  }

  /** A variable repeated in an application pattern matches only when both
      of its positions face structurally equal arguments. */
  lemma RepeatedVariableAgrees(f: string, ps: seq<Expr>, v: Expr, x: string, i: int, j: int)
    requires 0 <= i < |ps| && 0 <= j < |ps|
    requires ps[i] == Sym(x) && ps[j] == Sym(x)
    requires Match(Fun(f, ps), v).Some?
    ensures v.Fun? && v.args[i] == v.args[j]
  {
    MatchSound(Fun(f, ps), v);
    var r := Match(Fun(f, ps), v).value;
    VarsListAt(ps, i);
    assert v.args == InstantiateList(r, ps);
    assert v.args[i] == r[x] == v.args[j];
  }

  /** An application pattern matches only an application with the same name
      and the same number of arguments, each argument being the instance of
      the pattern's argument at that position; it never matches a symbol. */
  lemma AppPatternShape(f: string, ps: seq<Expr>, v: Expr)
    requires Match(Fun(f, ps), v).Some?
    ensures v.Fun? && v.name == f && |v.args| == |ps|
    ensures forall i :: 0 <= i < |ps| ==>
      v.args[i] == Instantiate(Match(Fun(f, ps), v).value, ps[i])
  {
    MatchSound(Fun(f, ps), v);
  }

  /** A symbol pattern always matches, binding the symbol to the whole value. */
  lemma SymPatternBinds(x: string, v: Expr)
    ensures Match(Sym(x), v) == Some(map[x := v])
  {
  }
}

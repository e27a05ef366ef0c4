/** The worked example of the engine: the rule
    `swap(pair(a, b)) = pair(b, a)` applied in one pass, and the matcher
    and rewriter on small inputs that pin down their edge cases. */
module SwapExample {
  import opened Terms
  import opened Matcher
  import opened Substitution
  import opened Rewriter
  import opened Display

  function Pair(x: Expr, y: Expr): Expr { Fun("pair", [x, y]) }
  function Swap(x: Expr): Expr { Fun("swap", [x]) }
  function Unary(f: string, x: string): Expr { Fun(f, [Sym(x)]) }

  function SwapRule(): Rule
  {
    Rule(Swap(Pair(Sym("a"), Sym("b"))), Pair(Sym("b"), Sym("a")))
  }

  function Input(): Expr
  {
    Fun("foo", [Swap(Pair(Unary("f", "a"), Unary("g", "b"))),
                Swap(Pair(Unary("q", "c"), Unary("z", "d")))])
  }

  lemma SwapRuleWellFormed()
    ensures Vars(SwapRule().head) == {"a", "b"}
    ensures WellFormed(SwapRule())
  {
    assert VarsList([Sym("a"), Sym("b")]) == {"a", "b"};
    assert FunNamesList([Sym("b"), Sym("a")]) == {};
  }

  /** At a redex `swap(pair(x, y))` the pass yields `pair(y, x)`. */
  lemma SwapAtRedex(x: Expr, y: Expr)
    ensures ApplyAll(SwapRule(), Swap(Pair(x, y))) == Ok(Pair(y, x))
  {
    var s := map["a" := x, "b" := y];
    SwapRuleWellFormed();
    assert InstantiateList(s, [Sym("a"), Sym("b")]) == [x, y];
    assert InstantiateList(s, [Pair(Sym("a"), Sym("b"))]) == [Pair(x, y)];
    assert Instantiate(s, SwapRule().head) == Swap(Pair(x, y));
    assert Restrict(s, {"a", "b"}) == s;
    assert InstantiateList(s, [Sym("b"), Sym("a")]) == [y, x];
    ApplyAllAtRedex(SwapRule(), s);
  }

  /** Both redexes are rewritten, each with its own bindings. */
  lemma SwapRewritesBothRedexes()
    ensures ApplyAll(SwapRule(), Input()) ==
      Ok(Fun("foo", [Pair(Unary("g", "b"), Unary("f", "a")),
                     Pair(Unary("z", "d"), Unary("q", "c"))]))
  {
    SwapAtRedex(Unary("f", "a"), Unary("g", "b"));
    SwapAtRedex(Unary("q", "c"), Unary("z", "d"));
    assert Match(SwapRule().head, Input()).None?;
    var args := Input().args;
    assert ApplyAllArgs(SwapRule(), args).value ==
      [Pair(Unary("g", "b"), Unary("f", "a")), Pair(Unary("z", "d"), Unary("q", "c"))];
  }

  lemma SwapRendering()
    ensures RenderRule(SwapRule()) == "swap(pair(a, b)) = pair(b, a)"
  {
    assert RenderList([Sym("a"), Sym("b")]) == "a, b";
    assert Render(Pair(Sym("a"), Sym("b"))) == "pair(a, b)";
    assert Render(Pair(Sym("b"), Sym("a"))) == "pair(b, a)";
    assert Render(Swap(Pair(Sym("a"), Sym("b")))) == "swap(pair(a, b))";
  }

  lemma RenderUnary(f: string, x: string)
    ensures Render(Unary(f, x)) == f + "(" + x + ")"
  {
    assert RenderList([Sym(x)]) == x;
  }

  lemma RenderBinary(f: string, x: Expr, y: Expr)
    ensures Render(Fun(f, [x, y])) == f + "(" + Render(x) + ", " + Render(y) + ")"
  {
    assert RenderList([x, y]) == Render(x) + ", " + Render(y) by {
      assert [x, y][1..] == [y];
    }
  }

  lemma RenderSwap(x: Expr)
    ensures Render(Swap(x)) == "swap(" + Render(x) + ")"
  {
    assert RenderList([x]) == Render(x);
  }

  lemma RenderFirstRedex()
    ensures Render(Swap(Pair(Unary("f", "a"), Unary("g", "b")))) == "swap(pair(f(a), g(b)))"
  {
    RenderUnary("f", "a");
    RenderUnary("g", "b");
    RenderBinary("pair", Unary("f", "a"), Unary("g", "b"));
    RenderSwap(Pair(Unary("f", "a"), Unary("g", "b")));
  }

  lemma RenderSecondRedex()
    ensures Render(Swap(Pair(Unary("q", "c"), Unary("z", "d")))) == "swap(pair(q(c), z(d)))"
  {
    RenderUnary("q", "c");
    RenderUnary("z", "d");
    RenderBinary("pair", Unary("q", "c"), Unary("z", "d"));
    RenderSwap(Pair(Unary("q", "c"), Unary("z", "d")));
  }

  lemma InputRendering()
    ensures Render(Input()) == "foo(swap(pair(f(a), g(b))), swap(pair(q(c), z(d))))"
  {
    var x, y := Swap(Pair(Unary("f", "a"), Unary("g", "b"))), Swap(Pair(Unary("q", "c"), Unary("z", "d")));
    RenderFirstRedex();
    RenderSecondRedex();
    RenderBinary("foo", x, y);
    JoinInputText(Render(x), Render(y));
  }

  lemma JoinInputText(x: string, y: string)
    requires x == "swap(pair(f(a), g(b)))"
    requires y == "swap(pair(q(c), z(d)))"
    ensures "foo" + "(" + x + ", " + y + ")" == "foo(swap(pair(f(a), g(b))), swap(pair(q(c), z(d))))"
  {
    assert "foo" + "(" + x + ", " == "foo(swap(pair(f(a), g(b))), ";
    assert y + ")" == "swap(pair(q(c), z(d))))";
  }

  lemma RenderSwappedPair(f: string, x: string, g: string, y: string)
    ensures Render(Pair(Unary(g, y), Unary(f, x))) == "pair(" + g + "(" + y + "), " + f + "(" + x + "))"
  {
    RenderUnary(g, y);
    RenderUnary(f, x);
    RenderBinary("pair", Unary(g, y), Unary(f, x));
  }

  lemma RenderFirstResult()
    ensures Render(Pair(Unary("g", "b"), Unary("f", "a"))) == "pair(g(b), f(a))"
  {
    RenderSwappedPair("f", "a", "g", "b");
  }

  lemma RenderSecondResult()
    ensures Render(Pair(Unary("z", "d"), Unary("q", "c"))) == "pair(z(d), q(c))"
  {
    RenderSwappedPair("q", "c", "z", "d");
  }

  lemma SwapResultRendering()
    ensures Render(Fun("foo", [Pair(Unary("g", "b"), Unary("f", "a")),
                               Pair(Unary("z", "d"), Unary("q", "c"))]))
      == "foo(pair(g(b), f(a)), pair(z(d), q(c)))"
  {
    RenderFirstResult();
    RenderSecondResult();
    RenderBinary("foo", Pair(Unary("g", "b"), Unary("f", "a")), Pair(Unary("z", "d"), Unary("q", "c")));
  }

  /** An application with no arguments renders with empty parentheses. */
  lemma NullaryRendering(name: string)
    ensures Render(Fun(name, [])) == name + "()"
  {
  }

  /** One pass: the outer redex is replaced and its replacement is not
      visited again, so the inner `swap` survives. */
  lemma SinglePassOnly()
    ensures ApplyAll(SwapRule(), Swap(Pair(Swap(Pair(Sym("a"), Sym("b"))), Sym("c"))))
      == Ok(Pair(Sym("c"), Swap(Pair(Sym("a"), Sym("b")))))
  {
    SwapAtRedex(Swap(Pair(Sym("a"), Sym("b"))), Sym("c"));
  }

  /** `f(X, X)` matches `f(a, a)` binding `X` to `a`, and does not match `f(a, b)`. */
  lemma RepeatedVariableExample()
    ensures Match(Fun("f", [Sym("X"), Sym("X")]), Fun("f", [Sym("a"), Sym("a")]))
      == Some(map["X" := Sym("a")])
    ensures Match(Fun("f", [Sym("X"), Sym("X")]), Fun("f", [Sym("a"), Sym("b")])) == None
  {
    var p := Fun("f", [Sym("X"), Sym("X")]);
    var s := map["X" := Sym("a")];
    assert VarsList(p.args) == {"X"};
    assert InstantiateList(s, p.args) == [Sym("a"), Sym("a")];
    MatchDetermined(p, Fun("f", [Sym("a"), Sym("a")]), s);
    assert Restrict(s, {"X"}) == s;
    if Match(p, Fun("f", [Sym("a"), Sym("b")])).Some? {
      RepeatedVariableAgrees("f", p.args, Fun("f", [Sym("a"), Sym("b")]), "X", 0, 1);
    }
  }

  /** `f(X)` matches neither `g(X)` nor `f(X, Y)`. */
  lemma NameAndArityExample()
    ensures Match(Fun("f", [Sym("X")]), Fun("g", [Sym("X")])) == None
    ensures Match(Fun("f", [Sym("X")]), Fun("f", [Sym("X"), Sym("Y")])) == None
  {
  }

  /** A tree without any redex comes back unchanged. */
  lemma NoRedexExample()
    ensures ApplyAll(SwapRule(), Fun("bar", [Sym("c")])) == Ok(Fun("bar", [Sym("c")]))
  {
    assert NoRedex(SwapRule().head, Sym("c"));
    ApplyAllNoRedex(SwapRule(), Fun("bar", [Sym("c")]));
  }

  /** A head variable in function-name position renames the body's
      function when bound to a symbol, and aborts the pass when bound to an
      application. */
  lemma RenamingExample()
    ensures ApplyAll(Rule(Unary("h", "F"), Unary("F", "c")), Unary("h", "k")) == Ok(Unary("k", "c"))
    ensures ApplyAll(Rule(Unary("h", "F"), Unary("F", "c")), Fun("h", [Unary("g", "a")]))
      == Err(InvalidNameBinding("F", Unary("g", "a")))
  {
    assert Match(Unary("h", "F"), Unary("h", "k")) == Some(map["F" := Sym("k")]);
    var b := map["F" := Sym("k")];
    assert "c" !in b;
    assert SubstituteBindings(b, Sym("c")) == Ok(Sym("c"));
    assert [Sym("c")][1..] == [];
    assert SubstituteArgs(b, []) == Ok([]);
    assert [Sym("c")] + [] == [Sym("c")];
    assert SubstituteArgs(b, [Sym("c")]) == Ok([Sym("c")]);
    assert Match(Unary("h", "F"), Fun("h", [Unary("g", "a")])) == Some(map["F" := Unary("g", "a")]);
  }
}

/** The canonical rendering of expressions and rules: a symbol is its bare
    name, an application is `name(arg, arg, ...)`, a rule is
    `head = body`. */
module Display {
  import opened Terms

  /** A symbol renders as its name; an application as its name followed
      by its parenthesised argument list, so at least two characters
      longer than its name. */
  function Render(e: Expr): (r: string)
    ensures e.Sym? ==> r == e.name
    ensures e.Fun? ==> |r| >= |e.name| + 2
    decreases e, 1
  {
    match e
    case Sym(name) => name
    case Fun(name, args) => name + "(" + RenderList(args) + ")"
  }

  /** The arguments rendered and separated by `", "`: nothing for no
      arguments, and a two-character separator between consecutive ones. */
  function RenderList(args: seq<Expr>): (r: string)
    ensures args == [] ==> r == ""
    ensures |args| > 1 ==> |r| >= 2 * (|args| - 1)
    decreases args, 0
  {
    if |args| == 0 then ""
    else if |args| == 1 then Render(args[0])
    else Render(args[0]) + ", " + RenderList(args[1..])
  }

  /** The head's rendering, then `" = "`, then the body's rendering. */
  function RenderRule(rule: Rule): (r: string)
    ensures Render(rule.head) <= r
    ensures |r| == |Render(rule.head)| + 3 + |Render(rule.body)|
    ensures r[|Render(rule.head)|..|Render(rule.head)| + 3] == " = "
    ensures r[|Render(rule.head)| + 3..] == Render(rule.body)
  {
    Render(rule.head) + " = " + Render(rule.body)
  }

  /** Writes `e` the way the formatter does: the name and `(`, then each
      argument, preceded by `", "` from the second one on, then `)`. */
  method Fmt(e: Expr) returns (out: string)
    ensures out == Render(e)
    decreases e
  {
    match e {
      case Sym(name) =>
        out := name;
      case Fun(name, args) =>
        out := name + "(";
        for i := 0 to |args|
          invariant out == name + "(" + RenderList(args[..i])
        {
          if i > 0 {
            out := out + ", ";
          }
          var arg := Fmt(args[i]);
          RenderListAppend(args[..i], args[i]);
          assert args[..i + 1] == args[..i] + [args[i]];
          out := out + arg;
        }
        assert args[..|args|] == args;
        out := out + ")";
    }
  }

  /** Rendering one more argument appends it after a separator. */
  lemma {:induction false} RenderListAppend(args: seq<Expr>, x: Expr)
    ensures RenderList(args + [x]) ==
      if args == [] then Render(x) else RenderList(args) + ", " + Render(x)
  {
    if |args| == 1 {
      assert (args + [x])[1..] == [x];
    } else if |args| > 1 {
      assert (args + [x])[1..] == args[1..] + [x];
      RenderListAppend(args[1..], x);
    }
  }

  // ---------------------------------------------------------------------
  // The rendering is unambiguous for trees whose names are identifiers.

  predicate IsNameChar(c: char)
  {
    ('a' <= c <= 'z') || ('A' <= c <= 'Z') || ('0' <= c <= '9') || c == '_'
  }

  predicate IsName(s: string)
  {
    |s| > 0 && forall i :: 0 <= i < |s| ==> IsNameChar(s[i])
  }

  /** Every name in `e` is a non-empty run of identifier characters. */
  predicate WellNamed(e: Expr)
    decreases e
  {
    IsName(e.name) &&
    match e
    case Sym(_) => true
    case Fun(_, args) => forall i :: 0 <= i < |args| ==> WellNamed(args[i])
  }

  /** A text that cannot continue a name. */
  predicate EndsName(t: string)
  {
    t == [] || !IsNameChar(t[0])
  }

  /** A text that can follow a rendered expression without changing how
      it reads: it neither continues the name nor opens an argument list. */
  predicate Delimited(t: string)
  {
    EndsName(t) && (t == [] || t[0] != '(')
  }

  /** The length of the run of identifier characters that starts `s`. */
  function NameLength(s: string): (n: nat)
    ensures n <= |s|
  {
    if s == [] || !IsNameChar(s[0]) then 0 else 1 + NameLength(s[1..])
  }

  lemma {:induction false} NameLengthOf(n: string, t: string)
    requires forall i :: 0 <= i < |n| ==> IsNameChar(n[i])
    requires EndsName(t)
    ensures NameLength(n + t) == |n|
  {
    if n == [] {
      assert n + t == t;
    } else {
      assert (n + t)[1..] == n[1..] + t;
      NameLengthOf(n[1..], t);
    }
  }

  /** A name ends where the identifier characters end. */
  lemma NamePrefix(n1: string, t1: string, n2: string, t2: string)
    requires IsName(n1) && IsName(n2) && EndsName(t1) && EndsName(t2)
    requires n1 + t1 == n2 + t2
    ensures n1 == n2 && t1 == t2
  {
    NameLengthOf(n1, t1);
    NameLengthOf(n2, t2);
    assert n1 == (n1 + t1)[..|n1|];
    assert n2 == (n2 + t2)[..|n2|];
    assert t1 == (n1 + t1)[|n1|..];
    assert t2 == (n2 + t2)[|n2|..];
  }

  lemma RenderStartsWithName(e: Expr)
    requires WellNamed(e)
    ensures |Render(e)| > 0 && IsNameChar(Render(e)[0])
  {
  }

  /** A rendered expression followed by a delimited text determines both
      the expression and the text. */
  lemma {:induction false} RenderPrefixFree(e1: Expr, e2: Expr, r1: string, r2: string)
    requires WellNamed(e1) && WellNamed(e2) && Delimited(r1) && Delimited(r2)
    requires Render(e1) + r1 == Render(e2) + r2
    ensures e1 == e2 && r1 == r2
    decreases e1, 1
  {
    var t1 := if e1.Fun? then "(" + (RenderList(e1.args) + ")" + r1) else r1;
    var t2 := if e2.Fun? then "(" + (RenderList(e2.args) + ")" + r2) else r2;
    assert Render(e1) + r1 == e1.name + t1;
    assert Render(e2) + r2 == e2.name + t2;
    NamePrefix(e1.name, t1, e2.name, t2);
    if e1.Fun? && e2.Fun? {
      assert RenderList(e1.args) + ")" + r1 == t1[1..] == t2[1..] == RenderList(e2.args) + ")" + r2;
      RenderListPrefixFree(e1.args, e2.args, r1, r2);
    } else if e1.Fun? || e2.Fun? {
      assert false;
    }
  }

  /** A rendered argument list followed by `)` opens with `)` exactly when
      the list is empty. */
  lemma ListOpening(a: seq<Expr>, r: string)
    requires forall i :: 0 <= i < |a| ==> WellNamed(a[i])
    ensures |RenderList(a) + ")" + r| > 0
    ensures (RenderList(a) + ")" + r)[0] == ')' <==> a == []
  {
    if a != [] {
      RenderStartsWithName(a[0]);
      assert (RenderList(a) + ")" + r)[0] == Render(a[0])[0];
    }
  }

  /** What follows the first rendered argument of a non-empty list and
      its closing `)`: the `)` itself, or a separator and the rest. */
  function ListTail(a: seq<Expr>, r: string): string
    requires a != []
  {
    if |a| == 1 then ")" + r else ", " + (RenderList(a[1..]) + ")" + r)
  }

  lemma ListSplit(a: seq<Expr>, r: string)
    requires a != []
    ensures RenderList(a) + ")" + r == Render(a[0]) + ListTail(a, r)
    ensures ListTail(a, r)[0] == ')' <==> |a| == 1
    ensures |a| == 1 ==> ListTail(a, r)[1..] == r
    ensures |a| > 1 ==> ListTail(a, r)[2..] == RenderList(a[1..]) + ")" + r
  {
    if |a| == 1 {
      ListSplitSingle(a, r);
    } else {
      ListSplitMany(a, r);
    }
  }

  lemma ListSplitSingle(a: seq<Expr>, r: string)
    requires |a| == 1
    ensures RenderList(a) + ")" + r == Render(a[0]) + ListTail(a, r)
    ensures ListTail(a, r)[0] == ')' && ListTail(a, r)[1..] == r
  {
    assert RenderList(a) == Render(a[0]);
    assert (")" + r)[1..] == r;
  }

  lemma ListSplitMany(a: seq<Expr>, r: string)
    requires |a| > 1
    ensures RenderList(a) + ")" + r == Render(a[0]) + ListTail(a, r)
    ensures ListTail(a, r)[0] == ','
    ensures ListTail(a, r)[2..] == RenderList(a[1..]) + ")" + r
  {
    assert RenderList(a) == Render(a[0]) + ", " + RenderList(a[1..]);
    Regroup(Render(a[0]), RenderList(a[1..]), r);
  }

  /** Moving the separator of a list into the text that follows the first
      argument. */
  lemma Regroup(head: string, list: string, r: string)
    ensures head + ", " + list + ")" + r == head + (", " + (list + ")" + r))
    ensures (", " + (list + ")" + r))[0] == ','
    ensures (", " + (list + ")" + r))[2..] == list + ")" + r
  {
  }

  lemma {:induction false} RenderListPrefixFree(a1: seq<Expr>, a2: seq<Expr>, r1: string, r2: string)
    requires forall i :: 0 <= i < |a1| ==> WellNamed(a1[i])
    requires forall i :: 0 <= i < |a2| ==> WellNamed(a2[i])
    requires RenderList(a1) + ")" + r1 == RenderList(a2) + ")" + r2
    ensures a1 == a2 && r1 == r2
    decreases a1, 0
  {
    ListOpening(a1, r1);
    ListOpening(a2, r2);
    if a1 == [] {
      assert RenderList(a1) + ")" + r1 == ")" + r1;
      assert RenderList(a2) + ")" + r2 == ")" + r2;
      assert r1 == (")" + r1)[1..] == (")" + r2)[1..] == r2;
    } else {
      var tail1, tail2 := ListTail(a1, r1), ListTail(a2, r2);
      ListSplit(a1, r1);
      ListSplit(a2, r2);
      RenderPrefixFree(a1[0], a2[0], tail1, tail2);
      if |a1| == 1 {
        assert a1 == [a1[0]] && a2 == [a2[0]];
      } else {
        RenderListPrefixFree(a1[1..], a2[1..], r1, r2);
        assert a1 == [a1[0]] + a1[1..] && a2 == [a2[0]] + a2[1..];
      }
    }
  }

  /** Distinct identifier-named expressions render differently. */
  lemma RenderInjective(e1: Expr, e2: Expr)
    requires WellNamed(e1) && WellNamed(e2)
    requires Render(e1) == Render(e2)
    ensures e1 == e2
  {
    assert Render(e1) + "" == Render(e2) + "";
    RenderPrefixFree(e1, e2, "", "");
  }

  /** Distinct identifier-named rules render differently. */
  lemma RenderRuleInjective(rule1: Rule, rule2: Rule)
    requires WellNamed(rule1.head) && WellNamed(rule1.body)
    requires WellNamed(rule2.head) && WellNamed(rule2.body)
    requires RenderRule(rule1) == RenderRule(rule2)
    ensures rule1 == rule2
  {
    var t1, t2 := " = " + Render(rule1.body), " = " + Render(rule2.body);
    assert RenderRule(rule1) == Render(rule1.head) + t1 && RenderRule(rule2) == Render(rule2.head) + t2;
    RenderPrefixFree(rule1.head, rule2.head, t1, t2);
    assert Render(rule1.body) == t1[3..] == t2[3..] == Render(rule2.body);
    RenderInjective(rule1.body, rule2.body);
  }
}

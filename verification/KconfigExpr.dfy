// Printing and parsing of kconfiglib.py's expressions, as lists of tokens.
module KconfigExpr {
  import opened Common
  import opened KconfigSpec

  datatype Token = SymTok(sym: Sym) | AndTok | OrTok | NotTok | OpenTok | CloseTok | RelTok(rel: Rel)

  // ----- expr_str -----

  function Print(e: Expr): seq<Token>
    decreases e, 0
  {
    match e
    case Ref(s) => [SymTok(s)]
    case And(l, r) => AndOperand(l) + [AndTok] + AndOperand(r)
    case Or(l, r) => OrOperand(l) + [OrTok] + OrOperand(r)
    case Not(x) => if x.Ref? then [NotTok] + Print(x) else [NotTok, OpenTok] + Print(x) + [CloseTok]
    case Relation(rel, a, b) => [SymTok(a), RelTok(rel), SymTok(b)]
  }

  // _parenthesize: only an operand of the other kind gets parentheses.
  function AndOperand(e: Expr): seq<Token>
    decreases e, 1
  {
    if e.Or? then [OpenTok] + Print(e) + [CloseTok] else Print(e)
  }

  function OrOperand(e: Expr): seq<Token>
    decreases e, 1
  {
    if e.And? then [OpenTok] + Print(e) + [CloseTok] else Print(e)
  }

  // ----- the parser -----

  // An expression, and the tokens that are left.
  type Parsed = Option<(Expr, seq<Token>)>

  predicate StartsWith(ts: seq<Token>, t: Token) { ts != [] && ts[0] == t }

  predicate StartsWithRel(ts: seq<Token>) { ts != [] && ts[0].RelTok? }

  function ParseExpr(ts: seq<Token>): (r: Parsed)
    ensures r.Some? ==> |r.value.1| < |ts|
    decreases |ts|, 2
  {
    var left :- ParseAnd(ts);
    if StartsWith(left.1, OrTok) then
      var right :- ParseExpr(left.1[1..]);
      Some((Or(left.0, right.0), right.1))
    else Some(left)
  }

  function ParseAnd(ts: seq<Token>): (r: Parsed)
    ensures r.Some? ==> |r.value.1| < |ts|
    decreases |ts|, 1
  {
    var left :- ParseFactor(ts);
    if StartsWith(left.1, AndTok) then
      var right :- ParseAnd(left.1[1..]);
      Some((And(left.0, right.0), right.1))
    else Some(left)
  }

  function ParseFactor(ts: seq<Token>): (r: Parsed)
    ensures r.Some? ==> |r.value.1| < |ts|
    decreases |ts|, 0
  {
    if ts == [] then None
    else
      match ts[0]
      case SymTok(s) =>
        if !StartsWithRel(ts[1..]) then Some((Ref(s), ts[1..]))
        else if |ts| > 2 && ts[2].SymTok? then Some((Relation(ts[1].rel, s, ts[2].sym), ts[3..]))
        else None
      case NotTok =>
        var arg :- ParseFactor(ts[1..]);
        Some((Not(arg.0), arg.1))
      case OpenTok =>
        var inner :- ParseExpr(ts[1..]);
        if StartsWith(inner.1, CloseTok) then Some((inner.0, inner.1[1..])) else None
      case _ => None
  }

  // ----- what comes back -----

  // Chains of one operator lean to the right.
  function AndChain(l: Expr, r: Expr): Expr { if l.And? then And(l.left, AndChain(l.right, r)) else And(l, r) }

  function OrChain(l: Expr, r: Expr): Expr { if l.Or? then Or(l.left, OrChain(l.right, r)) else Or(l, r) }

  function Norm(e: Expr): (r: Expr)
    ensures (r.And? <==> e.And?) && (r.Or? <==> e.Or?)
  {
    match e
    case And(l, r) => AndChain(Norm(l), Norm(r))
    case Or(l, r) => OrChain(Norm(l), Norm(r))
    case Not(x) => Not(Norm(x))
    case _ => e
  }

  lemma {:induction false} AndAssoc(a: Expr, b: Expr, c: Expr)
    ensures AndChain(AndChain(a, b), c) == AndChain(a, AndChain(b, c))
  {
    if a.And? { AndAssoc(a.right, b, c); }
  }

  lemma {:induction false} OrAssoc(a: Expr, b: Expr, c: Expr)
    ensures OrChain(OrChain(a, b), c) == OrChain(a, OrChain(b, c))
  {
    if a.Or? { OrAssoc(a.right, b, c); }
  }

  // An operand without chain of its own, as one factor.
  predicate IsFactor(e: Expr) { !e.And? && !e.Or? }

  // ----- parsing what was printed -----

  lemma {:induction false} FactorParses(e: Expr, post: seq<Token>)
    requires IsFactor(e) && !StartsWithRel(post)
    ensures ParseFactor(Print(e) + post) == Some((Norm(e), post))
    decreases e, 0
  {
    var ts := Print(e) + post;
    match e
    case Ref(s) => assert ts[1..] == post;
    case Relation(rel, a, b) => assert ts[3..] == post;
    case Not(x) =>
      if x.Ref? {
        FactorParses(x, post);
        assert ts[1..] == Print(x) + post;
      } else {
        ParenParses(x, post);
        assert ts[1..] == [OpenTok] + Print(x) + [CloseTok] + post;
      }
  }

  lemma {:induction false} ParenParses(e: Expr, post: seq<Token>)
    ensures ParseFactor([OpenTok] + Print(e) + [CloseTok] + post) == Some((Norm(e), post))
    decreases e, 6
  {
    var ts := [OpenTok] + Print(e) + [CloseTok] + post;
    assert ts[1..] == Print(e) + ([CloseTok] + post);
    ExprParses(e, [CloseTok] + post);
    assert ([CloseTok] + post)[1..] == post;
  }

  // An operand of && reads as one factor, unless it is itself a chain.
  lemma {:induction false} AndOperandParses(e: Expr, post: seq<Token>)
    requires !e.And? && !StartsWithRel(post)
    ensures ParseFactor(AndOperand(e) + post) == Some((Norm(e), post))
    decreases e, 7
  {
    if e.Or? { ParenParses(e, post); } else { FactorParses(e, post); }
  }

  // What is printed of e, followed by && and a chain, reads as the longer chain.
  lemma {:induction false} AndChainParses(e: Expr, ts: seq<Token>, r: Expr, post: seq<Token>)
    requires ParseAnd(ts) == Some((r, post))
    ensures ParseAnd(AndOperand(e) + [AndTok] + ts) == Some((AndChain(Norm(e), r), post))
    decreases e, 8
  {
    hide ParseFactor;
    if e.And? {
      AndChainParses(e.right, ts, r, post);
      AndChainParses(e.left, AndOperand(e.right) + [AndTok] + ts, AndChain(Norm(e.right), r), post);
      assert AndOperand(e) + [AndTok] + ts == AndOperand(e.left) + [AndTok] + (AndOperand(e.right) + [AndTok] + ts);
      AndAssoc(Norm(e.left), Norm(e.right), r);
    } else {
      AndOperandParses(e, [AndTok] + ts);
      assert AndOperand(e) + [AndTok] + ts == AndOperand(e) + ([AndTok] + ts);
      assert ([AndTok] + ts)[1..] == ts;
    }
  }

  lemma {:induction false} AndParses(e: Expr, post: seq<Token>)
    requires !StartsWithRel(post) && !StartsWith(post, AndTok)
    ensures ParseAnd(AndOperand(e) + post) == Some((Norm(e), post))
    decreases e, 9
  {
    hide ParseFactor;
    if e.And? {
      AndParses(e.right, post);
      AndChainParses(e.left, AndOperand(e.right) + post, Norm(e.right), post);
      assert AndOperand(e) + post == AndOperand(e.left) + [AndTok] + (AndOperand(e.right) + post);
    } else {
      AndOperandParses(e, post);
    }
  }

  lemma {:induction false} OrOperandParses(e: Expr, post: seq<Token>)
    requires !e.Or? && !StartsWithRel(post) && !StartsWith(post, AndTok)
    ensures ParseAnd(OrOperand(e) + post) == Some((Norm(e), post))
    decreases e, 7
  {
    if e.And? { ParenParses(e, post); } else { FactorParses(e, post); }
  }

  lemma {:induction false} OrChainParses(e: Expr, ts: seq<Token>, r: Expr, post: seq<Token>)
    requires ParseExpr(ts) == Some((r, post))
    ensures ParseExpr(OrOperand(e) + [OrTok] + ts) == Some((OrChain(Norm(e), r), post))
    decreases e, 8
  {
    hide ParseFactor;
    if e.Or? {
      OrChainParses(e.right, ts, r, post);
      OrChainParses(e.left, OrOperand(e.right) + [OrTok] + ts, OrChain(Norm(e.right), r), post);
      assert OrOperand(e) + [OrTok] + ts == OrOperand(e.left) + [OrTok] + (OrOperand(e.right) + [OrTok] + ts);
      OrAssoc(Norm(e.left), Norm(e.right), r);
    } else {
      OrOperandParses(e, [OrTok] + ts);
      assert OrOperand(e) + [OrTok] + ts == OrOperand(e) + ([OrTok] + ts);
      assert ([OrTok] + ts)[1..] == ts;
    }
  }

  // A printed expression, whatever follows that cannot continue it.
  lemma {:induction false} ExprParses(e: Expr, post: seq<Token>)
    requires !StartsWithRel(post) && !StartsWith(post, AndTok) && !StartsWith(post, OrTok)
    ensures ParseExpr(Print(e) + post) == Some((Norm(e), post))
    decreases e, 5
  {
    hide ParseFactor;
    if e.Or? {
      LastOperand(e.right, post);
      OrChainParses(e.left, OrOperand(e.right) + post, Norm(e.right), post);
      assert Print(e) + post == OrOperand(e.left) + [OrTok] + (OrOperand(e.right) + post);
    } else if e.And? {
      AndParses(e.right, post);
      AndChainParses(e.left, AndOperand(e.right) + post, Norm(e.right), post);
      assert Print(e) + post == AndOperand(e.left) + [AndTok] + (AndOperand(e.right) + post);
    } else {
      FactorParses(e, post);
    }
  }

  lemma {:induction false} LastOperand(e: Expr, post: seq<Token>)
    requires !StartsWithRel(post) && !StartsWith(post, AndTok) && !StartsWith(post, OrTok)
    ensures ParseExpr(OrOperand(e) + post) == Some((Norm(e), post))
    decreases e, 9
  {
    if e.Or? { ExprParses(e, post); } else { OrOperandParses(e, post); }
  }

  // ----- theorems -----

  // Parsing all that was printed of an expression uses every token and gives the
  // expression with its chains leaning to the right.
  lemma RoundTrip(e: Expr)
    ensures ParseExpr(Print(e)) == Some((Norm(e), []))
  {
    assert Print(e) + [] == Print(e);
    ExprParses(e, []);
  }

  // Norm changes exactly the expressions in which a chain leans to the left.
  predicate LeansRight(e: Expr) {
    match e
    case And(l, r) => !l.And? && LeansRight(l) && LeansRight(r)
    case Or(l, r) => !l.Or? && LeansRight(l) && LeansRight(r)
    case Not(x) => LeansRight(x)
    case _ => true
  }

  lemma {:induction false} AndChainLeans(l: Expr, r: Expr)
    requires LeansRight(l) && LeansRight(r)
    ensures LeansRight(AndChain(l, r))
  {
    if l.And? { AndChainLeans(l.right, r); }
  }

  lemma {:induction false} OrChainLeans(l: Expr, r: Expr)
    requires LeansRight(l) && LeansRight(r)
    ensures LeansRight(OrChain(l, r))
  {
    if l.Or? { OrChainLeans(l.right, r); }
  }

  lemma {:induction false} NormLeansRight(e: Expr)
    ensures LeansRight(Norm(e)) && (Norm(e) == e <==> LeansRight(e))
  {
    match e
    case And(l, r) =>
      NormLeansRight(l);
      NormLeansRight(r);
      AndChainLeans(Norm(l), Norm(r));
    case Or(l, r) =>
      NormLeansRight(l);
      NormLeansRight(r);
      OrChainLeans(Norm(l), Norm(r));
    case Not(x) => NormLeansRight(x);
    case _ =>
  }

  lemma {:induction false} AndChainValue(c: Config, t: seq<Vals>, l: Expr, r: Expr)
    ensures Eval(c, t, AndChain(l, r)) == MinT(Eval(c, t, l), Eval(c, t, r))
  {
    if l.And? { AndChainValue(c, t, l.right, r); }
  }

  lemma {:induction false} OrChainValue(c: Config, t: seq<Vals>, l: Expr, r: Expr)
    ensures Eval(c, t, OrChain(l, r)) == MaxT(Eval(c, t, l), Eval(c, t, r))
  {
    if l.Or? { OrChainValue(c, t, l.right, r); }
  }

  // So what is read back has the same value whatever the symbols are worth.
  lemma {:induction false} SameValue(c: Config, t: seq<Vals>, e: Expr)
    ensures Eval(c, t, Norm(e)) == Eval(c, t, e)
  {
    match e
    case And(l, r) =>
      SameValue(c, t, l);
      SameValue(c, t, r);
      AndChainValue(c, t, Norm(l), Norm(r));
    case Or(l, r) =>
      SameValue(c, t, l);
      SameValue(c, t, r);
      OrChainValue(c, t, Norm(l), Norm(r));
    case Not(x) => SameValue(c, t, x);
    case _ =>
  }

  // ----- what is printed -----

  // The tokens of an expression from left to right, without parentheses.
  function InOrder(e: Expr): seq<Token> {
    match e
    case Ref(s) => [SymTok(s)]
    case And(l, r) => InOrder(l) + [AndTok] + InOrder(r)
    case Or(l, r) => InOrder(l) + [OrTok] + InOrder(r)
    case Not(x) => [NotTok] + InOrder(x)
    case Relation(rel, a, b) => [SymTok(a), RelTok(rel), SymTok(b)]
  }

  function Unparenthesized(ts: seq<Token>): seq<Token> {
    if ts == [] then []
    else (if ts[0] == OpenTok || ts[0] == CloseTok then [] else [ts[0]]) + Unparenthesized(ts[1..])
  }

  // Operands of the other kind, and negated expressions that are no symbol.
  function Pairs(e: Expr): nat {
    match e
    case And(l, r) => Pairs(l) + Pairs(r) + (if l.Or? then 1 else 0) + (if r.Or? then 1 else 0)
    case Or(l, r) => Pairs(l) + Pairs(r) + (if l.And? then 1 else 0) + (if r.And? then 1 else 0)
    case Not(x) => Pairs(x) + if x.Ref? then 0 else 1
    case _ => 0
  }

  lemma {:induction false} UnparenthesizedAppend(a: seq<Token>, b: seq<Token>)
    ensures Unparenthesized(a + b) == Unparenthesized(a) + Unparenthesized(b)
  {
    if a == [] {
      assert a + b == b;
    } else {
      assert (a + b)[0] == a[0] && (a + b)[1..] == a[1..] + b;
      UnparenthesizedAppend(a[1..], b);
    }
  }

  lemma OneToken(t: Token)
    ensures Unparenthesized([t]) == if t == OpenTok || t == CloseTok then [] else [t]
  {
    assert [t][1..] == [];
  }

  lemma Parenthesized(e: Expr)
    requires Unparenthesized(Print(e)) == InOrder(e)
    ensures Unparenthesized([OpenTok] + Print(e) + [CloseTok]) == InOrder(e)
  {
    hide Print, InOrder, Unparenthesized;
    UnparenthesizedAppend([OpenTok] + Print(e), [CloseTok]);
    UnparenthesizedAppend([OpenTok], Print(e));
    OneToken(OpenTok);
    OneToken(CloseTok);
  }

  lemma Chain(a: seq<Token>, t: Token, b: seq<Token>)
    requires t != OpenTok && t != CloseTok
    ensures Unparenthesized(a + [t] + b) == Unparenthesized(a) + [t] + Unparenthesized(b)
  {
    hide Unparenthesized;
    UnparenthesizedAppend(a + [t], b);
    UnparenthesizedAppend(a, [t]);
    OneToken(t);
  }

  // Printing puts the symbols and operators down in their order; parentheses go around
  // operands of the other kind and negated expressions, and around nothing else.
  lemma {:induction false} PrintMeans(e: Expr)
    ensures Unparenthesized(Print(e)) == InOrder(e) && |Print(e)| == |InOrder(e)| + 2 * Pairs(e)
  {
    hide Unparenthesized;
    match e
    case Ref(s) => OneToken(SymTok(s));
    case And(l, r) =>
      PrintMeans(l);
      PrintMeans(r);
      if l.Or? { Parenthesized(l); }
      if r.Or? { Parenthesized(r); }
      Chain(AndOperand(l), AndTok, AndOperand(r));
    case Or(l, r) =>
      PrintMeans(l);
      PrintMeans(r);
      if l.And? { Parenthesized(l); }
      if r.And? { Parenthesized(r); }
      Chain(OrOperand(l), OrTok, OrOperand(r));
    case Not(x) =>
      PrintMeans(x);
      if !x.Ref? { Parenthesized(x); }
      NotFirst(e, x);
    case Relation(rel, a, b) =>
      Chain([SymTok(a)], RelTok(rel), [SymTok(b)]);
      OneToken(SymTok(a));
      OneToken(SymTok(b));
      assert Print(e) == [SymTok(a)] + [RelTok(rel)] + [SymTok(b)];
  }

  lemma NotFirst(e: Expr, x: Expr)
    requires e == Not(x) && Unparenthesized(Print(x)) == InOrder(x)
    requires !x.Ref? ==> Unparenthesized([OpenTok] + Print(x) + [CloseTok]) == InOrder(x)
    ensures Unparenthesized(Print(e)) == [NotTok] + InOrder(x)
  {
    hide Unparenthesized, InOrder;
    var inner := if x.Ref? then Print(x) else [OpenTok] + Print(x) + [CloseTok];
    UnparenthesizedAppend([NotTok], inner);
    OneToken(NotTok);
    assert Print(e) == [NotTok] + inner;
  }

  // ----- what is parsed -----

  // An operand in parentheses unless it is a single factor.
  function Closed(e: Expr): seq<Token> { if IsFactor(e) then Print(e) else [OpenTok] + Print(e) + [CloseTok] }

  lemma ClosedParses(e: Expr, post: seq<Token>)
    requires !StartsWithRel(post)
    ensures ParseFactor(Closed(e) + post) == Some((Norm(e), post))
  {
    hide ParseFactor, ParseExpr, Print;
    if IsFactor(e) { FactorParses(e, post); } else { ParenParses(e, post); }
  }

  lemma LastFactor(e: Expr)
    ensures ParseAnd(Closed(e)) == Some((Norm(e), [])) && ParseExpr(Closed(e)) == Some((Norm(e), []))
  {
    hide ParseFactor, Closed;
    ClosedParses(e, []);
    assert Closed(e) + [] == Closed(e);
  }

  lemma AndTakes(e: Expr, ts: seq<Token>, r: Expr, post: seq<Token>)
    requires ParseAnd(ts) == Some((r, post))
    ensures ParseAnd(Closed(e) + [AndTok] + ts) == Some((And(Norm(e), r), post))
  {
    hide ParseFactor, Closed;
    ClosedParses(e, [AndTok] + ts);
    assert Closed(e) + [AndTok] + ts == Closed(e) + ([AndTok] + ts);
    assert ([AndTok] + ts)[1..] == ts;
  }

  lemma OrTakes(l: Expr, head: seq<Token>, ts: seq<Token>, r: Expr, post: seq<Token>)
    requires ParseAnd(head + ([OrTok] + ts)) == Some((l, [OrTok] + ts)) && ParseExpr(ts) == Some((r, post))
    ensures ParseExpr(head + ([OrTok] + ts)) == Some((Or(l, r), post))
  {
    hide ParseAnd;
    assert ([OrTok] + ts)[1..] == ts;
  }

  lemma FactorBeforeOr(e: Expr, ts: seq<Token>)
    ensures ParseAnd(Closed(e) + ([OrTok] + ts)) == Some((Norm(e), [OrTok] + ts))
  {
    hide ParseFactor, Closed;
    ClosedParses(e, [OrTok] + ts);
  }

  lemma AndOnTheRight(x: Expr, y: Expr, z: Expr)
    ensures ParseExpr(Closed(x) + ([OrTok] + (Closed(y) + [AndTok] + Closed(z)))) == Some((Or(Norm(x), And(Norm(y), Norm(z))), []))
  {
    hide *;
    LastFactor(z);
    AndTakes(y, Closed(z), Norm(z), []);
    var ts := Closed(y) + [AndTok] + Closed(z);
    WholeAnd(ts, And(Norm(y), Norm(z)));
    FactorBeforeOr(x, ts);
    OrTakes(Norm(x), Closed(x), ts, And(Norm(y), Norm(z)), []);
  }

  lemma AndOnTheLeft(x: Expr, y: Expr, z: Expr)
    ensures ParseExpr(Closed(x) + [AndTok] + Closed(y) + ([OrTok] + Closed(z))) == Some((Or(And(Norm(x), Norm(y)), Norm(z)), []))
  {
    hide *;
    LastFactor(z);
    var rest := [OrTok] + Closed(z);
    FactorBeforeOr(y, Closed(z));
    AndTakes(x, Closed(y) + rest, Norm(y), rest);
    Regroup(Closed(x), [AndTok], Closed(y), rest);
    OrTakes(And(Norm(x), Norm(y)), Closed(x) + [AndTok] + Closed(y), Closed(z), Norm(z), []);
  }

  lemma Regroup(a: seq<Token>, b: seq<Token>, c: seq<Token>, d: seq<Token>)
    ensures a + b + (c + d) == a + b + c + d
  {
  }

  // Of operands without parentheses of their own && binds before ||, on either side.
  lemma AndBindsBeforeOr(x: Expr, y: Expr, z: Expr)
    ensures ParseExpr(Closed(x) + ([OrTok] + (Closed(y) + [AndTok] + Closed(z)))) == Some((Or(Norm(x), And(Norm(y), Norm(z))), []))
    ensures ParseExpr(Closed(x) + [AndTok] + Closed(y) + ([OrTok] + Closed(z))) == Some((Or(And(Norm(x), Norm(y)), Norm(z)), []))
  {
    hide *;
    AndOnTheRight(x, y, z);
    AndOnTheLeft(x, y, z);
  }

  lemma WholeAnd(ts: seq<Token>, e: Expr)
    requires ParseAnd(ts) == Some((e, []))
    ensures ParseExpr(ts) == Some((e, []))
  {
    hide ParseAnd;
  }

  // ! binds before both, and a comparison before !.
  lemma NotBindsFirst(x: Expr, y: Expr)
    ensures ParseExpr([NotTok] + Closed(x) + [AndTok] + Closed(y)) == Some((And(Not(Norm(x)), Norm(y)), []))
    ensures ParseExpr([NotTok] + Closed(x) + ([OrTok] + Closed(y))) == Some((Or(Not(Norm(x)), Norm(y)), []))
  {
    hide Closed, ParseFactor, ParseAnd, ParseExpr;
    LastFactor(y);
    NotTakes(x, [AndTok] + Closed(y));
    NotTakes(x, [OrTok] + Closed(y));
    assert [NotTok] + Closed(x) + [AndTok] + Closed(y) == [NotTok] + Closed(x) + ([AndTok] + Closed(y));
    NotThenAnd(x, y, [NotTok] + Closed(x) + ([AndTok] + Closed(y)));
    WholeAnd([NotTok] + Closed(x) + ([AndTok] + Closed(y)), And(Not(Norm(x)), Norm(y)));
    FactorThenOr([NotTok] + Closed(x) + ([OrTok] + Closed(y)), Not(Norm(x)), [OrTok] + Closed(y));
    OrTakes(Not(Norm(x)), [NotTok] + Closed(x), Closed(y), Norm(y), []);
  }

  lemma NotTakes(x: Expr, post: seq<Token>)
    requires !StartsWithRel(post)
    ensures ParseFactor([NotTok] + Closed(x) + post) == Some((Not(Norm(x)), post))
  {
    hide Closed, ParseExpr;
    ClosedParses(x, post);
    assert ([NotTok] + Closed(x) + post)[1..] == Closed(x) + post;
  }

  lemma NotThenAnd(x: Expr, y: Expr, ts: seq<Token>)
    requires ParseFactor(ts) == Some((Not(Norm(x)), [AndTok] + Closed(y))) && ParseAnd(Closed(y)) == Some((Norm(y), []))
    ensures ParseAnd(ts) == Some((And(Not(Norm(x)), Norm(y)), []))
  {
    hide ParseFactor, Closed;
    assert ([AndTok] + Closed(y))[1..] == Closed(y);
  }

  lemma FactorThenOr(ts: seq<Token>, e: Expr, post: seq<Token>)
    requires ParseFactor(ts) == Some((e, post)) && StartsWith(post, OrTok)
    ensures ParseAnd(ts) == Some((e, post))
  {
    hide ParseFactor;
  }

  // ----- the parser itself -----

  class Parser {
    const tokens: seq<Token>
    var i: nat

    constructor (tokens: seq<Token>)
      ensures this.tokens == tokens && i == 0
    {
      this.tokens, i := tokens, 0;
    }

    ghost function Rest(): seq<Token>
      requires i <= |tokens|
      reads this
    {
      tokens[i..]
    }

    // _check_token.
    method CheckToken(t: Token) returns (b: bool)
      requires i <= |tokens|
      modifies `i
      ensures b == (i != old(i)) == StartsWith(old(Rest()), t)
      ensures old(i) <= i <= |tokens| && Rest() == if b then old(Rest())[1..] else old(Rest())
    {
      b := i < |tokens| && tokens[i] == t;
      if b {
        i := i + 1;
      }
    }

    // _parse_expr; None is a parse error.
    method Expression() returns (e: Option<Expr>)
      requires i <= |tokens|
      modifies `i
      ensures old(i) <= i <= |tokens| && e.Some? == ParseExpr(old(Rest())).Some?
      ensures e.Some? ==> old(i) < i && ParseExpr(old(Rest())) == Some((e.value, Rest()))
      decreases |tokens| - i, 2
    {
      e := Conjunction();
      if e.Some? {
        var or := CheckToken(OrTok);
        if or {
          var right := Expression();
          if right.None? {
            return None;
          }
          e := Some(Or(e.value, right.value));
        }
      }
    }

    // _parse_and_expr.
    method Conjunction() returns (e: Option<Expr>)
      requires i <= |tokens|
      modifies `i
      ensures old(i) <= i <= |tokens| && e.Some? == ParseAnd(old(Rest())).Some?
      ensures e.Some? ==> old(i) < i && ParseAnd(old(Rest())) == Some((e.value, Rest()))
      decreases |tokens| - i, 1
    {
      e := Factor();
      if e.Some? {
        var and := CheckToken(AndTok);
        if and {
          var right := Conjunction();
          if right.None? {
            return None;
          }
          e := Some(And(e.value, right.value));
        }
      }
    }

    // _parse_factor.
    method Factor() returns (e: Option<Expr>)
      requires i <= |tokens|
      modifies `i
      ensures old(i) <= i <= |tokens| && e.Some? == ParseFactor(old(Rest())).Some?
      ensures e.Some? ==> old(i) < i && ParseFactor(old(Rest())) == Some((e.value, Rest()))
      decreases |tokens| - i, 0
    {
      if i == |tokens| {
        return None;
      }
      var token := tokens[i];
      i := i + 1;
      assert Rest() == old(Rest())[1..];
      match token {
        case SymTok(s) =>
          if i == |tokens| || !tokens[i].RelTok? {
            return Some(Ref(s));
          }
          var rel := tokens[i].rel;
          i := i + 1;
          if i < |tokens| && tokens[i].SymTok? {
            e := Some(Relation(rel, s, tokens[i].sym));
            i := i + 1;
          } else {
            e := None;
          }
        case NotTok =>
          var arg := Factor();
          e := if arg.Some? then Some(Not(arg.value)) else None;
        case OpenTok =>
          e := Expression();
          if e.Some? {
            var closed := CheckToken(CloseTok);
            if !closed {
              e := None;
            }
          }
        case _ =>
          e := None;
      }
    }
  }
}

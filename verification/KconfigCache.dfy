// What the values cached so far determine. Each function here looks only where
// kconfiglib.py looks, in its order and with its short circuits, and is None where
// that look meets a value not yet cached.
module KconfigCache {
  import opened Common
  import opened KconfigSpec

  datatype Cell = Cell(vis: Option<Tri>, tri: Option<Tri>, str: Option<string>)

  const EMPTY := Cell(None, None, None)

  function TriAt(cells: seq<Cell>, s: Sym): Option<Tri> { if s < |cells| then cells[s].tri else None }

  function StrOf(cells: seq<Cell>, s: Sym): Option<string> { if s < |cells| then cells[s].str else None }

  function KindAt(c: Config, s: Sym): Kind { if s < |c.syms| then c.syms[s].kind else Bool }

  // Some(None) is a string that is no number.
  function NumIn(c: Config, cells: seq<Cell>, s: Sym): Option<Option<int>> {
    if Boolish(KindAt(c, s)) then
      var v :- TriAt(cells, s);
      Some(Some(v))
    else
      var v :- StrOf(cells, s);
      Some(c.parse(BaseOf(KindAt(c, s)), v))
  }

  function CompareStrIn(c: Config, cells: seq<Cell>, a: Sym, b: Sym): Option<int> {
    var x :- StrOf(cells, a);
    var y :- StrOf(cells, b);
    Some(c.strcmp(x, y))
  }

  function CompareIn(c: Config, cells: seq<Cell>, a: Sym, b: Sym): Option<int> {
    if KindAt(c, a).Str? && KindAt(c, b).Str? then CompareStrIn(c, cells, a, b)
    else
      var x :- NumIn(c, cells, a);
      if x.None? then CompareStrIn(c, cells, a, b)
      else
        var y :- NumIn(c, cells, b);
        if y.None? then CompareStrIn(c, cells, a, b) else Some(x.value - y.value)
  }

  function EvalIn(c: Config, cells: seq<Cell>, e: Expr): Option<Tri> {
    match e
    case Ref(s) => TriAt(cells, s)
    case And(l, r) =>
      var v :- EvalIn(c, cells, l);
      if v == 0 then Some(0)
      else
        var w :- EvalIn(c, cells, r);
        Some(MinT(v, w))
    case Or(l, r) =>
      var v :- EvalIn(c, cells, l);
      if v == 2 then Some(2)
      else
        var w :- EvalIn(c, cells, r);
        Some(MaxT(v, w))
    case Not(x) =>
      var v :- EvalIn(c, cells, x);
      Some(2 - v)
    case Relation(rel, a, b) =>
      var comp :- CompareIn(c, cells, a, b);
      Some(TriOf(Holds(rel, comp)))
  }

  function MaxIn(c: Config, cells: seq<Cell>, es: seq<Expr>): Option<Tri> {
    if es == [] then Some(0)
    else
      var v :- MaxIn(c, cells, es[..|es| - 1]);
      var w :- EvalIn(c, cells, es[|es| - 1]);
      Some(MaxT(v, w))
  }

  function IsTristateIn(c: Config, cells: seq<Cell>, k: Kind): Option<bool> {
    if !k.Tristate? then Some(false)
    else
      var v :- TriAt(cells, c.modules);
      Some(v != 0)
  }

  // m becomes y on what is not tristate at the moment.
  function PromoteIn(c: Config, cells: seq<Cell>, k: Kind, v: Tri): Option<Tri> {
    if v != 1 then Some(v)
    else
      var tristate :- IsTristateIn(c, cells, k);
      Some(if tristate then 1 else 2)
  }

  function VisIn(c: Config, cells: seq<Cell>, d: SymDef): Option<Tri> {
    var v :- MaxIn(c, cells, d.prompts);
    PromoteIn(c, cells, d.kind, v)
  }

  function DefaultIn(c: Config, cells: seq<Cell>, ds: seq<(Expr, Expr)>): Option<Tri> {
    if ds == [] then Some(0)
    else
      var cond :- EvalIn(c, cells, ds[0].1);
      if cond == 0 then DefaultIn(c, cells, ds[1..])
      else
        var v :- EvalIn(c, cells, ds[0].0);
        Some(MinT(v, cond))
  }

  // Implies count only where the direct dependencies are met.
  function ImpliedIn(c: Config, cells: seq<Cell>, d: SymDef, v: Tri): Option<Tri> {
    var weak :- EvalIn(c, cells, d.weakRevDep);
    if weak == 0 then Some(v)
    else
      var direct :- EvalIn(c, cells, d.directDep);
      Some(if direct != 0 then MaxT(weak, v) else v)
  }

  function OwnIn(c: Config, cells: seq<Cell>, d: SymDef, u: UserVal, vis: Tri): Option<Tri> {
    if vis != 0 && u.TriVal? then Some(MinT(u.tri, vis))
    else
      var v :- DefaultIn(c, cells, d.defaults);
      ImpliedIn(c, cells, d, v)
  }

  // m becomes y also when the symbol is implied to y.
  function FinishIn(c: Config, cells: seq<Cell>, d: SymDef, v: Tri): Option<Tri> {
    var p :- PromoteIn(c, cells, d.kind, v);
    if p != 1 then Some(p)
    else
      var weak :- EvalIn(c, cells, d.weakRevDep);
      Some(if weak == 2 then 2 else 1)
  }

  function TriIn(c: Config, cells: seq<Cell>, d: SymDef, u: UserVal, vis: Option<Tri>): Option<Tri> {
    if d.kind.Const? then Some(d.kind.tri)
    else if !Boolish(d.kind) then Some(0)
    else
      var v :- vis;
      var own :- OwnIn(c, cells, d, u, v);
      var rev :- EvalIn(c, cells, d.revDep);
      FinishIn(c, cells, d, MaxT(rev, own))
  }

  function DefaultStrIn(c: Config, cells: seq<Cell>, ds: seq<(Sym, Expr)>): Option<string> {
    if ds == [] then Some("")
    else
      var cond :- EvalIn(c, cells, ds[0].1);
      if cond != 0 then StrOf(cells, ds[0].0) else DefaultStrIn(c, cells, ds[1..])
  }

  // Some(None) is no range in force.
  function RangeIn(c: Config, cells: seq<Cell>, base: nat, rs: seq<(Sym, Sym, Expr)>): Option<Option<(int, int)>> {
    if rs == [] then Some(None)
    else
      var cond :- EvalIn(c, cells, rs[0].2);
      if cond == 0 then RangeIn(c, cells, base, rs[1..])
      else
        var low :- StrOf(cells, rs[0].0);
        var high :- StrOf(cells, rs[0].1);
        Some(Some((OrZero(c.parse(base, low)), OrZero(c.parse(base, high)))))
  }

  function NumStrIn(c: Config, cells: seq<Cell>, d: SymDef, base: nat, u: UserVal, vis: Tri): Option<string> {
    var range :- RangeIn(c, cells, base, d.ranges);
    if vis != 0 && u.StrVal? && u.str != "" && Within(range, OrZero(c.parse(base, u.str))) then Some(u.str)
    else
      var val :- DefaultStrIn(c, cells, d.strDefaults);
      Some(Clamp(c, base, range, val))
  }

  function StrIn(c: Config, cells: seq<Cell>, d: SymDef, u: UserVal, vis: Option<Tri>, tri: Option<Tri>): Option<string> {
    match d.kind
    case Name(n, _) => Some(n)
    case Str =>
      var v :- vis;
      if v != 0 && u.StrVal? then Some(u.str) else DefaultStrIn(c, cells, d.strDefaults)
    case Num(base) =>
      var v :- vis;
      NumStrIn(c, cells, d, base, u, v)
    case _ =>
      var t :- tri;
      Some(TriStr(t))
  }

  // ----- the invariant of the cache -----

  // Whatever is cached follows from what else is cached.
  ghost predicate CoherentAt(c: Config, user: seq<UserVal>, cells: seq<Cell>, s: Sym)
    requires s < |cells| == |c.syms| == |user|
  {
    var d := c.syms[s];
    && (cells[s].vis.Some? ==> VisIn(c, cells, d) == cells[s].vis)
    && (cells[s].tri.Some? ==> TriIn(c, cells, d, user[s], cells[s].vis) == cells[s].tri)
    && (cells[s].str.Some? ==> StrIn(c, cells, d, user[s], cells[s].vis, cells[s].tri) == cells[s].str)
  }

  ghost predicate Coherent(c: Config, user: seq<UserVal>, cells: seq<Cell>)
    requires |cells| == |c.syms| == |user|
  {
    forall s :: 0 <= s < |cells| ==> CoherentAt(c, user, cells, s)
  }

  // ----- more cached values determine the same and more -----

  predicate Extends<T(==)>(x: Option<T>, y: Option<T>) { x.Some? ==> x == y }

  ghost predicate Grows(a: seq<Cell>, b: seq<Cell>, r: Sym) {
    r < |a| ==>
      (r < |b| && Extends(a[r].vis, b[r].vis) && Extends(a[r].tri, b[r].tri) && Extends(a[r].str, b[r].str))
  }

  lemma {:induction false} EvalGrows(c: Config, a: seq<Cell>, b: seq<Cell>, e: Expr)
    requires forall r :: r in Refs(e) ==> Grows(a, b, r)
    ensures Extends(EvalIn(c, a, e), EvalIn(c, b, e))
  {
    match e
    case Ref(s) => assert s in Refs(e);
    case And(l, r) => EvalGrows(c, a, b, l); EvalGrows(c, a, b, r);
    case Or(l, r) => EvalGrows(c, a, b, l); EvalGrows(c, a, b, r);
    case Not(x) => EvalGrows(c, a, b, x);
    case Relation(rel, x, y) =>
      assert Extends(CompareIn(c, a, x, y), CompareIn(c, b, x, y)) by {
        assert x in Refs(e) && y in Refs(e);
      }
  }

  lemma {:induction false} MaxGrows(c: Config, a: seq<Cell>, b: seq<Cell>, es: seq<Expr>)
    requires forall e, r :: e in es && r in Refs(e) ==> Grows(a, b, r)
    ensures Extends(MaxIn(c, a, es), MaxIn(c, b, es))
  {
    if es != [] {
      EvalGrows(c, a, b, es[|es| - 1]);
      MaxGrows(c, a, b, es[..|es| - 1]);
    }
  }

  lemma {:induction false} DefaultGrows(c: Config, a: seq<Cell>, b: seq<Cell>, ds: seq<(Expr, Expr)>)
    requires forall e, r :: e in DefaultItems(ds) && r in Refs(e) ==> Grows(a, b, r)
    ensures Extends(DefaultIn(c, a, ds), DefaultIn(c, b, ds))
  {
    if ds != [] {
      assert ds[0].0 in DefaultItems(ds) && ds[0].1 in DefaultItems(ds);
      EvalGrows(c, a, b, ds[0].0);
      EvalGrows(c, a, b, ds[0].1);
      DefaultGrows(c, a, b, ds[1..]);
    }
  }

  lemma {:induction false} DefaultStrGrows(c: Config, a: seq<Cell>, b: seq<Cell>, ds: seq<(Sym, Expr)>)
    requires forall e, r :: e in StrItems(ds) && r in Refs(e) ==> Grows(a, b, r)
    ensures Extends(DefaultStrIn(c, a, ds), DefaultStrIn(c, b, ds))
  {
    if ds != [] {
      assert Ref(ds[0].0) in StrItems(ds) && ds[0].1 in StrItems(ds);
      assert ds[0].0 in Refs(Ref(ds[0].0)) && Grows(a, b, ds[0].0);
      EvalGrows(c, a, b, ds[0].1);
      DefaultStrGrows(c, a, b, ds[1..]);
    }
  }

  lemma {:induction false} RangeGrows(c: Config, a: seq<Cell>, b: seq<Cell>, base: nat, rs: seq<(Sym, Sym, Expr)>)
    requires forall e, r :: e in RangeItems(rs) && r in Refs(e) ==> Grows(a, b, r)
    ensures Extends(RangeIn(c, a, base, rs), RangeIn(c, b, base, rs))
  {
    if rs != [] {
      assert Ref(rs[0].0) in RangeItems(rs) && Ref(rs[0].1) in RangeItems(rs) && rs[0].2 in RangeItems(rs);
      assert rs[0].0 in Refs(Ref(rs[0].0)) && rs[0].1 in Refs(Ref(rs[0].1));
      assert Grows(a, b, rs[0].0) && Grows(a, b, rs[0].1);
      EvalGrows(c, a, b, rs[0].2);
      RangeGrows(c, a, b, base, rs[1..]);
    }
  }

  // b caches all that a does of the symbols the value of a symbol is made of.
  ghost predicate Feeds(c: Config, a: seq<Cell>, b: seq<Cell>, d: SymDef) {
    && (forall r: nat :: Mentions(d, r) ==> Grows(a, b, r))
    && (d.kind.Tristate? ==> Grows(a, b, c.modules))
  }

  lemma FeedsItems(c: Config, a: seq<Cell>, b: seq<Cell>, d: SymDef)
    requires Feeds(c, a, b, d)
    ensures forall e, r :: e in Items(d) && r in Refs(e) ==> Grows(a, b, r)
  {
    forall e, r | e in Items(d) && r in Refs(e) ensures Grows(a, b, r) {
      assert Mentions(d, r);
    }
  }

  lemma VisGrows(c: Config, a: seq<Cell>, b: seq<Cell>, d: SymDef)
    requires Feeds(c, a, b, d)
    ensures Extends(VisIn(c, a, d), VisIn(c, b, d))
  {
    FeedsItems(c, a, b, d);
    assert forall e :: e in d.prompts ==> e in Items(d);
    MaxGrows(c, a, b, d.prompts);
  }

  lemma OwnGrows(c: Config, a: seq<Cell>, b: seq<Cell>, d: SymDef, u: UserVal, vis: Tri)
    requires Feeds(c, a, b, d)
    ensures Extends(OwnIn(c, a, d, u, vis), OwnIn(c, b, d, u, vis))
  {
    hide EvalIn, DefaultIn;
    FeedsItems(c, a, b, d);
    assert d.weakRevDep in Items(d) && d.directDep in Items(d);
    assert forall e :: e in DefaultItems(d.defaults) ==> e in Items(d);
    EvalGrows(c, a, b, d.weakRevDep);
    EvalGrows(c, a, b, d.directDep);
    DefaultGrows(c, a, b, d.defaults);
  }

  lemma TriGrows(c: Config, a: seq<Cell>, b: seq<Cell>, d: SymDef, u: UserVal, v: Option<Tri>, w: Option<Tri>)
    requires Feeds(c, a, b, d) && Extends(v, w)
    ensures Extends(TriIn(c, a, d, u, v), TriIn(c, b, d, u, w))
  {
    hide EvalIn, OwnIn;
    FeedsItems(c, a, b, d);
    assert d.revDep in Items(d) && d.weakRevDep in Items(d);
    EvalGrows(c, a, b, d.revDep);
    EvalGrows(c, a, b, d.weakRevDep);
    if v.Some? {
      OwnGrows(c, a, b, d, u, v.value);
    }
  }

  lemma StrGrows(c: Config, a: seq<Cell>, b: seq<Cell>, d: SymDef, u: UserVal, v: Option<Tri>, w: Option<Tri>, p: Option<Tri>, q: Option<Tri>)
    requires Feeds(c, a, b, d) && Extends(v, w) && Extends(p, q)
    ensures Extends(StrIn(c, a, d, u, v, p), StrIn(c, b, d, u, w, q))
  {
    FeedsItems(c, a, b, d);
    assert forall e :: e in StrItems(d.strDefaults) ==> e in Items(d);
    assert forall e :: e in RangeItems(d.ranges) ==> e in Items(d);
    DefaultStrGrows(c, a, b, d.strDefaults);
    RangeGrows(c, a, b, BaseOf(d.kind), d.ranges);
  }

  ghost predicate AllGrow(a: seq<Cell>, b: seq<Cell>) {
    |a| == |b| && forall r: nat :: r < |a| ==> Grows(a, b, r)
  }

  // Caching what the cache determines keeps it coherent.
  lemma Store(c: Config, user: seq<UserVal>, a: seq<Cell>, s: Sym, cell: Cell)
    requires s < |a| == |c.syms| == |user| && Coherent(c, user, a)
    requires cell.vis.Some? ==> VisIn(c, a, c.syms[s]) == cell.vis
    requires cell.tri.Some? ==> TriIn(c, a, c.syms[s], user[s], a[s].vis) == cell.tri
    requires cell.str.Some? ==> StrIn(c, a, c.syms[s], user[s], a[s].vis, a[s].tri) == cell.str
    requires Extends(a[s].vis, cell.vis) && Extends(a[s].tri, cell.tri) && Extends(a[s].str, cell.str)
    ensures Coherent(c, user, a[s := cell]) && AllGrow(a, a[s := cell])
  {
    hide VisIn, TriIn, StrIn;
    var b := a[s := cell];
    forall k | 0 <= k < |b| ensures CoherentAt(c, user, b, k) {
      assert CoherentAt(c, user, a, k);
      VisGrows(c, a, b, c.syms[k]);
      TriGrows(c, a, b, c.syms[k], user[k], a[k].vis, b[k].vis);
      StrGrows(c, a, b, c.syms[k], user[k], a[k].vis, b[k].vis, a[k].tri, b[k].tri);
    }
  }

  lemma StoreVis(c: Config, user: seq<UserVal>, a: seq<Cell>, s: Sym, v: Tri)
    requires s < |a| == |c.syms| == |user| && Coherent(c, user, a) && VisIn(c, a, c.syms[s]) == Some(v)
    ensures Coherent(c, user, a[s := a[s].(vis := Some(v))]) && AllGrow(a, a[s := a[s].(vis := Some(v))])
  {
    hide VisIn, TriIn, StrIn;
    assert CoherentAt(c, user, a, s);
    Store(c, user, a, s, a[s].(vis := Some(v)));
  }

  lemma StoreTri(c: Config, user: seq<UserVal>, a: seq<Cell>, s: Sym, v: Tri)
    requires s < |a| == |c.syms| == |user| && Coherent(c, user, a) && TriIn(c, a, c.syms[s], user[s], a[s].vis) == Some(v)
    ensures Coherent(c, user, a[s := a[s].(tri := Some(v))]) && AllGrow(a, a[s := a[s].(tri := Some(v))])
  {
    hide VisIn, TriIn, StrIn;
    assert CoherentAt(c, user, a, s);
    Store(c, user, a, s, a[s].(tri := Some(v)));
  }

  lemma StoreStr(c: Config, user: seq<UserVal>, a: seq<Cell>, s: Sym, v: string)
    requires s < |a| == |c.syms| == |user| && Coherent(c, user, a)
    requires StrIn(c, a, c.syms[s], user[s], a[s].vis, a[s].tri) == Some(v)
    ensures Coherent(c, user, a[s := a[s].(str := Some(v))]) && AllGrow(a, a[s := a[s].(str := Some(v))])
  {
    hide VisIn, TriIn, StrIn;
    assert CoherentAt(c, user, a, s);
    Store(c, user, a, s, a[s].(str := Some(v)));
  }

  // ----- invalidation -----

  // b is a with the caches of some symbols emptied.
  ghost predicate Emptied(c: Config, a: seq<Cell>, b: seq<Cell>)
  {
    && |a| == |b| == |c.syms|
    && forall s: nat :: s < |a| ==> b[s] == a[s] || (b[s] == EMPTY && Defined(c.syms[s].kind))
  }

  // The symbols a change of r may affect: constants never change, and only
  // defined symbols are affected.
  ghost predicate Depends(c: Config, s: Sym, r: Sym) {
    s < |c.syms| && r < |c.syms| && Defined(c.syms[s].kind) && !Constant(c.syms[r].kind) && Mentions(c.syms[s], r)
  }

  // No visibility is cached of what depends on r, and none at all if r is MODULES.
  ghost predicate Silenced(c: Config, cells: seq<Cell>, r: Sym) {
    && (forall s: nat :: s < |cells| && Depends(c, s, r) ==> cells[s].vis.None?)
    && (r == c.modules ==> forall s: nat :: s < |cells| && s < |c.syms| && Defined(c.syms[s].kind) ==> cells[s].vis.None?)
  }

  // A user value of a symbol without prompt has no effect.
  lemma NoPromptNoUser(c: Config, cells: seq<Cell>, d: SymDef, u: UserVal, w: UserVal, vis: Option<Tri>, tri: Option<Tri>)
    requires d.prompts == [] && Extends(vis, VisIn(c, cells, d))
    ensures TriIn(c, cells, d, u, vis) == TriIn(c, cells, d, w, vis)
    ensures StrIn(c, cells, d, u, vis, tri) == StrIn(c, cells, d, w, vis, tri)
  {
    hide EvalIn, ImpliedIn, DefaultIn, FinishIn, DefaultStrIn, RangeIn;
    assert VisIn(c, cells, d) == Some(0);
  }

  // Emptying may stop at symbols without cached visibility: what stays is still
  // determined by what stays, also for a new user value of the emptied symbol x.
  lemma EmptyingKeepsCoherent(c: Config, user: seq<UserVal>, was: seq<UserVal>, a: seq<Cell>, b: seq<Cell>, x: Sym)
    requires x < |a| == |c.syms| == |user| == |was| && Acyclic(c) && Coherent(c, was, a) && Emptied(c, a, b)
    requires user == was[x := user[x]] && b[x] == EMPTY
    requires forall r: nat :: r < |a| && a[r] != b[r] ==> Silenced(c, b, r)
    ensures Coherent(c, user, b)
  {
    hide VisIn, TriIn, StrIn;
    forall s | 0 <= s < |b| ensures CoherentAt(c, user, b, s) {
      if b[s] != EMPTY {
        assert CoherentAt(c, was, a, s) && a[s] == b[s];
        if Defined(c.syms[s].kind) && b[s].vis.Some? {
          forall r: nat | Mentions(c.syms[s], r) ensures Grows(a, b, r) {
            assert r < s;
            assert Constant(c.syms[r].kind) || Depends(c, s, r);
            assert a[r] == b[r] || Silenced(c, b, r);
          }
          assert Feeds(c, a, b, c.syms[s]);
          VisGrows(c, a, b, c.syms[s]);
          TriGrows(c, a, b, c.syms[s], was[s], a[s].vis, b[s].vis);
          StrGrows(c, a, b, c.syms[s], was[s], a[s].vis, b[s].vis, a[s].tri, b[s].tri);
        } else {
          BlindIsCoherent(c, was[s], a, b, c.syms[s], a[s]);
        }
      }
    }
  }

  // The values a symbol can have cached without its visibility, and all values
  // of an undefined symbol, do not depend on other symbols.
  lemma BlindIsCoherent(c: Config, u: UserVal, a: seq<Cell>, b: seq<Cell>, d: SymDef, cell: Cell)
    requires (!Defined(d.kind) && d.prompts == []) || cell.vis.None?
    requires cell.vis.Some? ==> VisIn(c, a, d) == cell.vis
    requires cell.tri.Some? ==> TriIn(c, a, d, u, cell.vis) == cell.tri
    requires cell.str.Some? ==> StrIn(c, a, d, u, cell.vis, cell.tri) == cell.str
    ensures cell.vis.Some? ==> VisIn(c, b, d) == cell.vis
    ensures cell.tri.Some? ==> TriIn(c, b, d, u, cell.vis) == cell.tri
    ensures cell.str.Some? ==> StrIn(c, b, d, u, cell.vis, cell.tri) == cell.str
  {
    hide EvalIn, OwnIn, FinishIn, NumStrIn, DefaultStrIn;
  }

  // ----- all values cached: the short circuits change nothing -----

  // The cache that holds the values t, and nothing about later symbols.
  function Full(t: seq<Vals>, n: nat): (r: seq<Cell>)
    ensures |r| == n
    ensures forall s :: 0 <= s < n ==> r[s] == if s < |t| then Cell(Some(t[s].vis), Some(t[s].tri), Some(t[s].str)) else EMPTY
  {
    seq(n, s => if 0 <= s < |t| then Cell(Some(t[s].vis), Some(t[s].tri), Some(t[s].str)) else EMPTY)
  }

  lemma {:induction false} FullEval(c: Config, t: seq<Vals>, e: Expr)
    requires |t| <= |c.syms| && forall r :: r in Refs(e) ==> r < |t|
    ensures EvalIn(c, Full(t, |c.syms|), e) == Some(Eval(c, t, e))
  {
    match e
    case Ref(s) => assert s in Refs(e);
    case And(l, r) => assert Refs(l) <= Refs(e) && Refs(r) <= Refs(e); FullEval(c, t, l); FullEval(c, t, r);
    case Or(l, r) => assert Refs(l) <= Refs(e) && Refs(r) <= Refs(e); FullEval(c, t, l); FullEval(c, t, r);
    case Not(x) => assert Refs(x) <= Refs(e); FullEval(c, t, x);
    case Relation(rel, x, y) => assert x in Refs(e) && y in Refs(e);
  }

  lemma {:induction false} FullMax(c: Config, t: seq<Vals>, es: seq<Expr>)
    requires |t| <= |c.syms| && forall e, r :: e in es && r in Refs(e) ==> r < |t|
    ensures MaxIn(c, Full(t, |c.syms|), es) == Some(MaxOf(c, t, es))
  {
    if es != [] {
      FullEval(c, t, es[|es| - 1]);
      FullMax(c, t, es[..|es| - 1]);
    }
  }

  lemma {:induction false} FullDefault(c: Config, t: seq<Vals>, ds: seq<(Expr, Expr)>)
    requires |t| <= |c.syms| && forall e, r :: e in DefaultItems(ds) && r in Refs(e) ==> r < |t|
    ensures DefaultIn(c, Full(t, |c.syms|), ds) == Some(DefaultOf(c, t, ds))
  {
    if ds != [] {
      assert ds[0].0 in DefaultItems(ds) && ds[0].1 in DefaultItems(ds);
      FullEval(c, t, ds[0].0);
      FullEval(c, t, ds[0].1);
      FullDefault(c, t, ds[1..]);
    }
  }

  lemma {:induction false} FullDefaultStr(c: Config, t: seq<Vals>, ds: seq<(Sym, Expr)>)
    requires |t| <= |c.syms| && forall e, r :: e in StrItems(ds) && r in Refs(e) ==> r < |t|
    ensures DefaultStrIn(c, Full(t, |c.syms|), ds) == Some(DefaultStr(c, t, ds))
  {
    if ds != [] {
      assert Ref(ds[0].0) in StrItems(ds) && ds[0].1 in StrItems(ds);
      assert ds[0].0 in Refs(Ref(ds[0].0));
      FullEval(c, t, ds[0].1);
      FullDefaultStr(c, t, ds[1..]);
    }
  }

  lemma {:induction false} FullRange(c: Config, t: seq<Vals>, base: nat, rs: seq<(Sym, Sym, Expr)>)
    requires |t| <= |c.syms| && forall e, r :: e in RangeItems(rs) && r in Refs(e) ==> r < |t|
    ensures RangeIn(c, Full(t, |c.syms|), base, rs) == Some(RangeOf(c, t, base, rs))
  {
    if rs != [] {
      assert Ref(rs[0].0) in RangeItems(rs) && Ref(rs[0].1) in RangeItems(rs) && rs[0].2 in RangeItems(rs);
      assert rs[0].0 in Refs(Ref(rs[0].0)) && rs[0].1 in Refs(Ref(rs[0].1));
      FullEval(c, t, rs[0].2);
      FullRange(c, t, base, rs[1..]);
    }
  }

  // The symbols the value of d is made of have values in t.
  ghost predicate Known(c: Config, t: seq<Vals>, d: SymDef) {
    && |t| <= |c.syms| && (forall r: nat :: Mentions(d, r) ==> r < |t|)
    && (d.kind.Tristate? ==> c.modules < |t|)
  }

  lemma KnownItems(c: Config, t: seq<Vals>, d: SymDef)
    requires Known(c, t, d)
    ensures forall e, r :: e in Items(d) && r in Refs(e) ==> r < |t|
  {
    forall e, r | e in Items(d) && r in Refs(e) ensures r < |t| {
      assert Mentions(d, r);
    }
  }

  // A symbol over a full cache has its value over the values in it.
  lemma FullVis(c: Config, t: seq<Vals>, d: SymDef)
    requires Known(c, t, d)
    ensures VisIn(c, Full(t, |c.syms|), d) == Some(VisOf(c, t, d))
  {
    KnownItems(c, t, d);
    assert forall e :: e in d.prompts ==> e in Items(d);
    FullMax(c, t, d.prompts);
  }

  lemma FullOwn(c: Config, t: seq<Vals>, d: SymDef, u: UserVal, vis: Tri)
    requires Known(c, t, d)
    ensures OwnIn(c, Full(t, |c.syms|), d, u, vis) == Some(OwnOf(c, t, d, u, vis))
  {
    hide EvalIn, Eval, DefaultIn, DefaultOf;
    KnownItems(c, t, d);
    assert d.weakRevDep in Items(d) && d.directDep in Items(d);
    assert forall e :: e in DefaultItems(d.defaults) ==> e in Items(d);
    FullDefault(c, t, d.defaults);
    FullEval(c, t, d.weakRevDep);
    FullEval(c, t, d.directDep);
  }

  lemma FullTri(c: Config, t: seq<Vals>, d: SymDef, u: UserVal, vis: Tri)
    requires Known(c, t, d)
    ensures TriIn(c, Full(t, |c.syms|), d, u, Some(vis)) == Some(TriValOf(c, t, d, u, vis))
  {
    hide EvalIn, Eval, OwnIn, OwnOf;
    KnownItems(c, t, d);
    assert d.revDep in Items(d) && d.weakRevDep in Items(d);
    FullEval(c, t, d.revDep);
    FullEval(c, t, d.weakRevDep);
    FullOwn(c, t, d, u, vis);
  }

  lemma FullStr(c: Config, t: seq<Vals>, d: SymDef, u: UserVal, vis: Tri, tri: Tri)
    requires Known(c, t, d)
    ensures StrIn(c, Full(t, |c.syms|), d, u, Some(vis), Some(tri)) == Some(StrValOf(c, t, d, u, vis, tri))
  {
    hide RangeIn, RangeOf, DefaultStrIn, DefaultStr;
    KnownItems(c, t, d);
    assert forall e :: e in StrItems(d.strDefaults) ==> e in Items(d);
    assert forall e :: e in RangeItems(d.ranges) ==> e in Items(d);
    FullDefaultStr(c, t, d.strDefaults);
    FullRange(c, t, BaseOf(d.kind), d.ranges);
  }

  // ----- every cached value is the value from scratch -----

  lemma {:induction false} CachedIsScratch(c: Config, user: seq<UserVal>, cells: seq<Cell>, n: nat)
    requires n <= |cells| == |c.syms| == |user| && Acyclic(c) && Coherent(c, user, cells)
    ensures forall s: nat :: s < n ==> Grows(cells, Full(Scratch(c, user, n), |c.syms|), s)
  {
    if n > 0 {
      var s := n - 1;
      var t := Scratch(c, user, s);
      var full := Full(t, |c.syms|);
      CachedIsScratch(c, user, cells, s);
      assert Feeds(c, cells, full, c.syms[s]);
      var v := ValsOf(c, t, c.syms[s], user[s]);
      FullVis(c, t, c.syms[s]);
      FullTri(c, t, c.syms[s], user[s], v.vis);
      FullStr(c, t, c.syms[s], user[s], v.vis, v.tri);
      VisGrows(c, cells, full, c.syms[s]);
      assert Extends(cells[s].vis, Some(v.vis)) by { assert CoherentAt(c, user, cells, s); }
      TriGrows(c, cells, full, c.syms[s], user[s], cells[s].vis, Some(v.vis));
      assert Extends(cells[s].tri, Some(v.tri)) by { assert CoherentAt(c, user, cells, s); }
      StrGrows(c, cells, full, c.syms[s], user[s], cells[s].vis, Some(v.vis), cells[s].tri, Some(v.tri));
      assert Extends(cells[s].str, Some(v.str)) by { assert CoherentAt(c, user, cells, s); }
      assert Scratch(c, user, n)[s] == v;
      forall r: nat | r < n ensures Grows(cells, Full(Scratch(c, user, n), |c.syms|), r) {
        if r < s { assert Scratch(c, user, n)[r] == t[r]; assert Grows(cells, full, r); }
      }
    }
  }

  lemma CachedValues(c: Config, user: seq<UserVal>, cells: seq<Cell>, s: Sym)
    requires s < |cells| == |c.syms| == |user| && Acyclic(c) && Coherent(c, user, cells)
    ensures var v := Scratch(c, user, |c.syms|)[s];
      Extends(cells[s].vis, Some(v.vis)) && Extends(cells[s].tri, Some(v.tri)) && Extends(cells[s].str, Some(v.str))
  {
    hide Coherent, Acyclic;
    CachedIsScratch(c, user, cells, |cells|);
    assert Grows(cells, Full(Scratch(c, user, |cells|), |c.syms|), s);
  }
}

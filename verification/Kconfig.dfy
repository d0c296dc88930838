// The value cache of kconfiglib.py: reads fill it, setting a user value empties
// the part of it that may change.
module Kconfig {
  import opened Common
  import opened KconfigSpec
  import opened KconfigCache

  // The conditions of a list of properties.
  function DefaultConds(ds: seq<(Expr, Expr)>): seq<Expr> { seq(|ds|, i requires 0 <= i < |ds| => ds[i].1) }

  function StrConds(ds: seq<(Sym, Expr)>): seq<Expr> { seq(|ds|, i requires 0 <= i < |ds| => ds[i].1) }

  function RangeConds(rs: seq<(Sym, Sym, Expr)>): seq<Expr> { seq(|rs|, i requires 0 <= i < |rs| => rs[i].2) }

  // The first i conditions are n and the next, if there is one, is v.
  ghost predicate FirstIs(c: Config, cells: seq<Cell>, conds: seq<Expr>, i: nat, v: Tri) {
    && i <= |conds| && (forall j :: 0 <= j < i ==> EvalIn(c, cells, conds[j]) == Some(0))
    && (i < |conds| ==> v != 0 && EvalIn(c, cells, conds[i]) == Some(v))
  }

  lemma FirstGrows(c: Config, a: seq<Cell>, b: seq<Cell>, conds: seq<Expr>, i: nat, v: Tri)
    requires FirstIs(c, a, conds, i, v) && AllGrow(a, b)
    ensures FirstIs(c, b, conds, i, v)
  {
    forall j | 0 <= j < |conds| ensures Extends(EvalIn(c, a, conds[j]), EvalIn(c, b, conds[j])) {
      EvalGrows(c, a, b, conds[j]);
    }
  }

  lemma {:induction false} DefaultAt(c: Config, cells: seq<Cell>, ds: seq<(Expr, Expr)>, i: nat, v: Tri)
    requires FirstIs(c, cells, DefaultConds(ds), i, v)
    ensures i == |ds| ==> DefaultIn(c, cells, ds) == Some(0)
    ensures i < |ds| && EvalIn(c, cells, ds[i].0).Some? ==>
      DefaultIn(c, cells, ds) == Some(MinT(EvalIn(c, cells, ds[i].0).value, v))
  {
    if ds != [] {
      assert DefaultConds(ds)[0] == ds[0].1;
      if i > 0 {
        assert DefaultConds(ds)[1..] == DefaultConds(ds[1..]);
        DefaultAt(c, cells, ds[1..], i - 1, v);
      }
    }
  }

  lemma {:induction false} DefaultStrAt(c: Config, cells: seq<Cell>, ds: seq<(Sym, Expr)>, i: nat, v: Tri)
    requires FirstIs(c, cells, StrConds(ds), i, v)
    ensures DefaultStrIn(c, cells, ds) == if i < |ds| then StrOf(cells, ds[i].0) else Some("")
  {
    if ds != [] {
      assert StrConds(ds)[0] == ds[0].1;
      if i > 0 {
        assert StrConds(ds)[1..] == StrConds(ds[1..]);
        DefaultStrAt(c, cells, ds[1..], i - 1, v);
      }
    }
  }

  function Limits(c: Config, base: nat, low: string, high: string): (int, int) {
    (OrZero(c.parse(base, low)), OrZero(c.parse(base, high)))
  }

  lemma {:induction false} RangeAt(c: Config, cells: seq<Cell>, base: nat, rs: seq<(Sym, Sym, Expr)>, i: nat, v: Tri)
    requires FirstIs(c, cells, RangeConds(rs), i, v)
    ensures i == |rs| ==> RangeIn(c, cells, base, rs) == Some(None)
    ensures i < |rs| && StrOf(cells, rs[i].0).Some? && StrOf(cells, rs[i].1).Some? ==>
      RangeIn(c, cells, base, rs) == Some(Some(Limits(c, base, StrOf(cells, rs[i].0).value, StrOf(cells, rs[i].1).value)))
  {
    if rs != [] {
      assert RangeConds(rs)[0] == rs[0].2;
      if i > 0 {
        assert RangeConds(rs)[1..] == RangeConds(rs[1..]);
        RangeAt(c, cells, base, rs[1..], i - 1, v);
      }
    }
  }

  lemma GrowOn(a: seq<Cell>, b: seq<Cell>, d: seq<Cell>)
    requires AllGrow(a, b) && AllGrow(b, d)
    ensures AllGrow(a, d)
  {
    forall r: nat | r < |a| ensures Grows(a, d, r) {
      assert Grows(a, b, r) && Grows(b, d, r);
    }
  }

  lemma DefaultsAreItems(d: SymDef)
    ensures forall e :: e in DefaultItems(d.defaults) ==> e in Items(d)
    ensures forall e :: e in DefaultConds(d.defaults) ==> e in Items(d)
    ensures forall i :: 0 <= i < |d.defaults| ==> d.defaults[i].0 in Items(d)
  {
    AllInDefaultItems(d.defaults);
  }

  lemma StrDefaultsAreItems(d: SymDef)
    ensures forall e :: e in StrItems(d.strDefaults) ==> e in Items(d)
    ensures forall e :: e in StrConds(d.strDefaults) ==> e in Items(d)
    ensures forall i :: 0 <= i < |d.strDefaults| ==> Ref(d.strDefaults[i].0) in Items(d)
  {
    AllInStrItems(d.strDefaults);
  }

  lemma {:induction false} AllInStrItems(ds: seq<(Sym, Expr)>)
    ensures forall i :: 0 <= i < |ds| ==> Ref(ds[i].0) in StrItems(ds) && ds[i].1 in StrItems(ds)
  {
    if ds != [] {
      AllInStrItems(ds[1..]);
      forall i | 0 <= i < |ds| ensures Ref(ds[i].0) in StrItems(ds) && ds[i].1 in StrItems(ds) {
        if i > 0 { assert ds[i] == ds[1..][i - 1]; }
      }
    }
  }

  lemma RangesAreItems(d: SymDef)
    ensures forall e :: e in RangeItems(d.ranges) ==> e in Items(d)
    ensures forall e :: e in RangeConds(d.ranges) ==> e in Items(d)
    ensures forall i :: 0 <= i < |d.ranges| ==> Ref(d.ranges[i].0) in Items(d) && Ref(d.ranges[i].1) in Items(d)
  {
    AllInRangeItems(d.ranges);
  }

  lemma {:induction false} AllInRangeItems(rs: seq<(Sym, Sym, Expr)>)
    ensures forall i :: 0 <= i < |rs| ==> Ref(rs[i].0) in RangeItems(rs) && Ref(rs[i].1) in RangeItems(rs) && rs[i].2 in RangeItems(rs)
  {
    if rs != [] {
      AllInRangeItems(rs[1..]);
      forall i | 0 <= i < |rs| ensures Ref(rs[i].0) in RangeItems(rs) && Ref(rs[i].1) in RangeItems(rs) && rs[i].2 in RangeItems(rs) {
        if i > 0 { assert rs[i] == rs[1..][i - 1]; }
      }
    }
  }

  lemma {:induction false} AllInDefaultItems(ds: seq<(Expr, Expr)>)
    ensures forall i :: 0 <= i < |ds| ==> ds[i].0 in DefaultItems(ds) && ds[i].1 in DefaultItems(ds)
  {
    if ds != [] {
      AllInDefaultItems(ds[1..]);
      forall i | 0 <= i < |ds| ensures ds[i].0 in DefaultItems(ds) && ds[i].1 in DefaultItems(ds) {
        if i > 0 { assert ds[i] == ds[1..][i - 1]; }
      }
    }
  }

  class Kconfig {
    const config: Config
    var user: seq<UserVal>
    var cells: seq<Cell>
    var dependents: seq<set<Sym>>

    ghost predicate Shaped()
      reads this
    {
      && |cells| == |user| == |dependents| == |config.syms| && Acyclic(config)
      && (forall r: nat, s: nat :: r < |dependents| ==> (s in dependents[r] <==> Depends(config, s, r)))
    }

    // The invariant of every run.
    ghost predicate Valid()
      reads this
    {
      && Shaped() && Coherent(config, user, cells)
      && (forall s: nat :: s < |cells| && config.syms[s].kind.Const? ==> cells[s].tri == Some(config.syms[s].kind.tri))
    }

    // ----- building the dependents -----

    // All symbols of e but the constants get s as a dependent.
    method MakeDependOn(s: Sym, e: Expr)
      requires |dependents| == |config.syms| && forall r :: r in Refs(e) ==> r < |dependents|
      modifies `dependents
      ensures |dependents| == |config.syms|
      ensures forall r: nat :: r < |dependents| ==>
        dependents[r] == if r in Refs(e) && !Constant(config.syms[r].kind) then old(dependents)[r] + {s} else old(dependents)[r]
    {
      match e
      case Ref(r) =>
        assert r in Refs(e);
        Add(s, r);
      case And(x, y) =>
        assert Refs(x) <= Refs(e) && Refs(y) <= Refs(e);
        MakeDependOn(s, x);
        MakeDependOn(s, y);
      case Or(x, y) =>
        assert Refs(x) <= Refs(e) && Refs(y) <= Refs(e);
        MakeDependOn(s, x);
        MakeDependOn(s, y);
      case Not(x) =>
        assert Refs(x) <= Refs(e);
        MakeDependOn(s, x);
      case Relation(_, x, y) =>
        assert x in Refs(e) && y in Refs(e);
        Add(s, x);
        Add(s, y);
    }

    method Add(s: Sym, r: Sym)
      requires r < |dependents| == |config.syms|
      modifies `dependents
      ensures dependents == old(dependents)[r := if Constant(config.syms[r].kind) then old(dependents)[r] else old(dependents)[r] + {s}]
    {
      if !Constant(config.syms[r].kind) {
        dependents := dependents[r := dependents[r] + {s}];
      }
    }

    method BuildDep()
      requires |dependents| == |cells| == |user| == |config.syms| && Acyclic(config)
      requires forall r: nat :: r < |dependents| ==> dependents[r] == {}
      modifies `dependents
      ensures Shaped()
    {
      var s := 0;
      while s < |config.syms|
        invariant s <= |config.syms| == |dependents|
        invariant forall r: nat, d: nat :: r < |dependents| ==> (d in dependents[r] <==> d < s && Depends(config, d, r))
      {
        if Defined(config.syms[s].kind) {
          BuildDepOf(s);
        }
        s := s + 1;
      }
    }

    ghost predicate SeenIn(items: seq<Expr>, r: Sym) { exists e :: e in items && r in Refs(e) }

    method BuildDepOf(s: Sym)
      requires s < |dependents| == |config.syms| && Acyclic(config) && Defined(config.syms[s].kind)
      modifies `dependents
      ensures |dependents| == |config.syms|
      ensures forall r: nat :: r < |dependents| ==>
        dependents[r] == if Depends(config, s, r) then old(dependents)[r] + {s} else old(dependents)[r]
    {
      var items := Items(config.syms[s]);
      var i := 0;
      while i < |items|
        invariant i <= |items| && |dependents| == |config.syms|
        invariant forall r: nat :: r < |dependents| ==>
          dependents[r] == if !Constant(config.syms[r].kind) && SeenIn(items[..i], r) then old(dependents)[r] + {s} else old(dependents)[r]
      {
        forall r | r in Refs(items[i]) ensures r < |dependents| {
          assert Mentions(config.syms[s], r);
        }
        MakeDependOn(s, items[i]);
        assert items[..i + 1] == items[..i] + [items[i]];
        i := i + 1;
      }
      assert items[..i] == items;
    }

    constructor (config: Config)
      requires Acyclic(config)
      ensures Valid() && this.config == config
      ensures forall s: nat :: s < |user| ==> user[s] == NoVal
    {
      this.config := config;
      user := seq(|config.syms|, _ => NoVal);
      cells := seq(|config.syms|, i requires 0 <= i < |config.syms| =>
        if config.syms[i].kind.Const? then EMPTY.(tri := Some(config.syms[i].kind.tri)) else EMPTY);
      dependents := seq(|config.syms|, _ => {});
      new;
      BuildDep();
    }

    // ----- reading -----

    ghost predicate Reads(e: Expr, s: Sym) { s <= |config.syms| && forall r :: r in Refs(e) ==> r < s }

    lemma ReadsItems(s: Sym)
      requires Acyclic(config) && s < |config.syms|
      ensures forall e :: e in Items(config.syms[s]) ==> Reads(e, s)
    {
      forall e, r | e in Items(config.syms[s]) && r in Refs(e) ensures r < s {
        assert Mentions(config.syms[s], r);
      }
    }

    // s bounds the symbols of e.
    method ExprValue(e: Expr, ghost s: Sym) returns (v: Tri)
      requires Valid() && Reads(e, s)
      modifies `cells
      ensures Valid() && AllGrow(old(cells), cells)
      ensures EvalIn(config, cells, e) == Some(v)
      decreases s, 1, e
    {
      match e
      case Ref(r) =>
        assert r in Refs(e);
        v := TriValue(r);
      case And(l, r) =>
        assert Refs(l) <= Refs(e) && Refs(r) <= Refs(e);
        v := ExprValue(l, s);
        if v != 0 {
          ghost var before := cells;
          var w := ExprValue(r, s);
          EvalGrows(config, before, cells, l);
          GrowOn(old(cells), before, cells);
          v := MinT(v, w);
        }
      case Or(l, r) =>
        assert Refs(l) <= Refs(e) && Refs(r) <= Refs(e);
        v := ExprValue(l, s);
        if v != 2 {
          ghost var before := cells;
          var w := ExprValue(r, s);
          EvalGrows(config, before, cells, l);
          GrowOn(old(cells), before, cells);
          v := MaxT(v, w);
        }
      case Not(x) =>
        assert Refs(x) <= Refs(e);
        v := ExprValue(x, s);
        v := 2 - v;
      case Relation(rel, a, b) =>
        assert a in Refs(e) && b in Refs(e);
        var comp := Comparison(a, b, s);
        v := TriOf(Holds(rel, comp));
    }

    method Comparison(a: Sym, b: Sym, ghost s: Sym) returns (comp: int)
      requires Valid() && a < s && b < s && s <= |cells|
      modifies `cells
      ensures Valid() && AllGrow(old(cells), cells)
      ensures CompareIn(config, cells, a, b) == Some(comp)
      decreases s, 0
    {
      if !(config.syms[a].kind.Str? && config.syms[b].kind.Str?) {
        var x := SymToNum(a, s);
        if x.Some? {
          ghost var before := cells;
          var y := SymToNum(b, s);
          GrowOn(old(cells), before, cells);
          assert Grows(before, cells, a);
          if y.Some? {
            return x.value - y.value;
          }
        }
      }
      ghost var before := cells;
      var p := StrValue(a);
      ghost var between := cells;
      var q := StrValue(b);
      GrowOn(before, between, cells);
      GrowOn(old(cells), before, cells);
      assert Grows(before, cells, a) && Grows(before, cells, b) && Grows(between, cells, a);
      comp := config.strcmp(p, q);
    }

    method SymToNum(a: Sym, ghost s: Sym) returns (x: Option<int>)
      requires Valid() && a < s <= |cells|
      modifies `cells
      ensures Valid() && AllGrow(old(cells), cells)
      ensures NumIn(config, cells, a) == Some(x)
      decreases a, 8
    {
      if Boolish(config.syms[a].kind) {
        var v := TriValue(a);
        x := Some(v);
      } else {
        var v := StrValue(a);
        x := config.parse(BaseOf(config.syms[a].kind), v);
      }
    }

    method TypeIsTristate(k: Kind, ghost s: Sym) returns (tristate: bool)
      requires Valid() && s < |cells| && (k.Tristate? ==> config.modules < s)
      modifies `cells
      ensures Valid() && AllGrow(old(cells), cells)
      ensures IsTristateIn(config, cells, k) == Some(tristate)
      decreases s, 0
    {
      tristate := false;
      if k.Tristate? {
        var v := TriValue(config.modules);
        tristate := v != 0;
      }
    }

    method Visibility(s: Sym) returns (vis: Tri)
      requires Valid() && s < |cells|
      modifies `cells
      ensures Valid() && AllGrow(old(cells), cells)
      ensures cells[s].vis == Some(vis)
      decreases s, 2
    {
      hide Coherent, EvalIn;
      if cells[s].vis.Some? {
        return cells[s].vis.value;
      }
      ReadsItems(s);
      var prompts := config.syms[s].prompts;
      assert forall e :: e in prompts ==> e in Items(config.syms[s]);
      vis := 0;
      var i := 0;
      while i < |prompts|
        invariant Valid() && i <= |prompts| && AllGrow(old(cells), cells)
        invariant MaxIn(config, cells, prompts[..i]) == Some(vis)
      {
        ghost var before := cells;
        var v := ExprValue(prompts[i], s);
        GrowOn(old(cells), before, cells);
        MaxGrows(config, before, cells, prompts[..i]);
        assert prompts[..i + 1][..i] == prompts[..i];
        vis := MaxT(vis, v);
        i := i + 1;
      }
      assert prompts[..i] == prompts;
      if vis == 1 {
        ghost var before := cells;
        var tristate := TypeIsTristate(config.syms[s].kind, s);
        GrowOn(old(cells), before, cells);
        MaxGrows(config, before, cells, prompts);
        if !tristate {
          vis := 2;
        }
      }
      ghost var before := cells;
      StoreVis(config, user, cells, s, vis);
      cells := cells[s := cells[s].(vis := Some(vis))];
      GrowOn(old(cells), before, cells);
    }

    // The index of the first condition that is not n, and its value.
    method FirstMet(conds: seq<Expr>, ghost s: Sym) returns (i: nat, v: Tri)
      requires Valid() && forall e :: e in conds ==> Reads(e, s)
      modifies `cells
      ensures Valid() && AllGrow(old(cells), cells)
      ensures FirstIs(config, cells, conds, i, v)
      decreases s, 2
    {
      i, v := 0, 0;
      while i < |conds|
        invariant Valid() && i <= |conds| && AllGrow(old(cells), cells)
        invariant forall j :: 0 <= j < i ==> EvalIn(config, cells, conds[j]) == Some(0)
      {
        ghost var before := cells;
        v := ExprValue(conds[i], s);
        GrowOn(old(cells), before, cells);
        forall j | 0 <= j < i ensures EvalIn(config, cells, conds[j]) == Some(0) {
          EvalGrows(config, before, cells, conds[j]);
        }
        if v != 0 {
          return;
        }
        i := i + 1;
      }
    }

    method Default(s: Sym) returns (val: Tri)
      requires Valid() && s < |cells|
      modifies `cells
      ensures Valid() && AllGrow(old(cells), cells)
      ensures DefaultIn(config, cells, config.syms[s].defaults) == Some(val)
      decreases s, 3
    {
      ReadsItems(s);
      var ds := config.syms[s].defaults;
      DefaultsAreItems(config.syms[s]);
      var i, v := FirstMet(DefaultConds(ds), s);
      val := 0;
      if i < |ds| {
        ghost var before := cells;
        var w := ExprValue(ds[i].0, s);
        GrowOn(old(cells), before, cells);
        FirstGrows(config, before, cells, DefaultConds(ds), i, v);
        val := MinT(w, v);
      }
      DefaultAt(config, cells, ds, i, v);
    }

    // The value before selects.
    method Own(s: Sym, vis: Tri) returns (val: Tri)
      requires Valid() && s < |cells|
      modifies `cells
      ensures Valid() && AllGrow(old(cells), cells)
      ensures OwnIn(config, cells, config.syms[s], user[s], vis) == Some(val)
      decreases s, 4
    {
      var d := config.syms[s];
      if vis != 0 && user[s].TriVal? {
        return MinT(user[s].tri, vis);
      }
      ReadsItems(s);
      assert d.weakRevDep in Items(d) && d.directDep in Items(d);
      val := Default(s);
      ghost var before := cells;
      var weak := ExprValue(d.weakRevDep, s);
      GrowOn(old(cells), before, cells);
      assert Extends(DefaultIn(config, before, d.defaults), DefaultIn(config, cells, d.defaults)) by {
        DefaultsAreItems(d);
        DefaultGrows(config, before, cells, d.defaults);
      }
      if weak != 0 {
        before := cells;
        var direct := ExprValue(d.directDep, s);
        GrowOn(old(cells), before, cells);
        EvalGrows(config, before, cells, d.weakRevDep);
        assert Extends(DefaultIn(config, before, d.defaults), DefaultIn(config, cells, d.defaults)) by {
          DefaultsAreItems(d);
          DefaultGrows(config, before, cells, d.defaults);
        }
        if direct != 0 {
          val := MaxT(weak, val);
        }
      }
    }

    // m becomes y on a bool symbol and on one implied to y.
    method Finish(s: Sym, v: Tri) returns (val: Tri)
      requires Valid() && s < |cells|
      modifies `cells
      ensures Valid() && AllGrow(old(cells), cells)
      ensures FinishIn(config, cells, config.syms[s], v) == Some(val)
      decreases s, 3
    {
      var d := config.syms[s];
      val := v;
      if val == 1 {
        var tristate := TypeIsTristate(d.kind, s);
        if !tristate {
          val := 2;
        } else {
          ReadsItems(s);
          assert d.weakRevDep in Items(d);
          ghost var before := cells;
          var weak := ExprValue(d.weakRevDep, s);
          GrowOn(old(cells), before, cells);
          assert Grows(before, cells, config.modules);
          if weak == 2 {
            val := 2;
          }
        }
      }
    }

    // The value of a bool or tristate symbol once its visibility is cached.
    method BoolValue(s: Sym, vis: Tri) returns (val: Tri)
      requires Valid() && s < |cells| && cells[s].vis == Some(vis) && (config.syms[s].kind.Bool? || config.syms[s].kind.Tristate?)
      modifies `cells
      ensures Valid() && AllGrow(old(cells), cells)
      ensures TriIn(config, cells, config.syms[s], user[s], cells[s].vis) == Some(val)
      decreases s, 5
    {
      hide Coherent, EvalIn, OwnIn, FinishIn;
      var d := config.syms[s];
      ReadsItems(s);
      assert d.revDep in Items(d) && d.directDep in Items(d);
      val := Own(s, vis);
      ghost var c1 := cells;
      var rev := ExprValue(d.revDep, s);
      GrowOn(old(cells), c1, cells);
      if rev != 0 {
        // Only to warn of unmet dependencies.
        ghost var c2 := cells;
        var direct := ExprValue(d.directDep, s);
        GrowOn(c1, c2, cells);
        GrowOn(old(cells), c1, cells);
        EvalGrows(config, c2, cells, d.revDep);
      }
      ghost var c3 := cells;
      ghost var own := val;
      val := Finish(s, MaxT(rev, val));
      GrowOn(c1, c3, cells);
      GrowOn(old(cells), c3, cells);
      EvalGrows(config, c3, cells, d.revDep);
      assert Extends(OwnIn(config, c1, d, user[s], vis), OwnIn(config, cells, d, user[s], vis)) by {
        assert Feeds(config, c1, cells, d);
        OwnGrows(config, c1, cells, d, user[s], vis);
      }
      assert Grows(old(cells), cells, s);
    }

    method TriValue(s: Sym) returns (val: Tri)
      requires Valid() && s < |cells|
      modifies `cells
      ensures Valid() && AllGrow(old(cells), cells)
      ensures cells[s].tri == Some(val)
      ensures val == Scratch(config, user, |config.syms|)[s].tri
      decreases s, 6
    {
      hide Coherent, FinishIn, OwnIn;
      if cells[s].tri.Some? {
        val := cells[s].tri.value;
      } else {
        val := 0;
        if Boolish(config.syms[s].kind) {
          var vis := Visibility(s);
          ghost var before := cells;
          val := BoolValue(s, vis);
          GrowOn(old(cells), before, cells);
        }
        ghost var before := cells;
        StoreTri(config, user, cells, s, val);
        cells := cells[s := cells[s].(tri := Some(val))];
        GrowOn(old(cells), before, cells);
      }
      CachedValues(config, user, cells, s);
    }

    method DefaultString(s: Sym) returns (val: string)
      requires Valid() && s < |cells|
      modifies `cells
      ensures Valid() && AllGrow(old(cells), cells)
      ensures DefaultStrIn(config, cells, config.syms[s].strDefaults) == Some(val)
      decreases s, 3
    {
      hide Coherent, EvalIn;
      ReadsItems(s);
      var ds := config.syms[s].strDefaults;
      StrDefaultsAreItems(config.syms[s]);
      var i, v := FirstMet(StrConds(ds), s);
      val := "";
      if i < |ds| {
        ghost var before := cells;
        assert Reads(Ref(ds[i].0), s) && ds[i].0 in Refs(Ref(ds[i].0));
        val := StrValue(ds[i].0);
        GrowOn(old(cells), before, cells);
        FirstGrows(config, before, cells, StrConds(ds), i, v);
      }
      DefaultStrAt(config, cells, ds, i, v);
    }

    method ActiveRange(s: Sym, base: nat) returns (range: Option<(int, int)>)
      requires Valid() && s < |cells|
      modifies `cells
      ensures Valid() && AllGrow(old(cells), cells)
      ensures RangeIn(config, cells, base, config.syms[s].ranges) == Some(range)
      decreases s, 3
    {
      hide Coherent, EvalIn;
      ReadsItems(s);
      var rs := config.syms[s].ranges;
      RangesAreItems(config.syms[s]);
      var i, v := FirstMet(RangeConds(rs), s);
      range := None;
      if i < |rs| {
        ghost var c0 := cells;
        assert Reads(Ref(rs[i].0), s) && rs[i].0 in Refs(Ref(rs[i].0));
        assert Reads(Ref(rs[i].1), s) && rs[i].1 in Refs(Ref(rs[i].1));
        var low := StrValue(rs[i].0);
        ghost var c1 := cells;
        var high := StrValue(rs[i].1);
        GrowOn(c0, c1, cells);
        GrowOn(old(cells), c0, cells);
        assert Grows(c1, cells, rs[i].0);
        FirstGrows(config, c0, cells, RangeConds(rs), i, v);
        range := Some(Limits(config, base, low, high));
      }
      RangeAt(config, cells, base, rs, i, v);
    }

    // The value of an int or hex symbol of visibility vis.
    method NumValue(s: Sym, vis: Tri) returns (val: string)
      requires Valid() && s < |cells| && config.syms[s].kind.Num?
      modifies `cells
      ensures Valid() && AllGrow(old(cells), cells)
      ensures NumStrIn(config, cells, config.syms[s], config.syms[s].kind.base, user[s], vis) == Some(val)
      decreases s, 4
    {
      hide Coherent, RangeIn, DefaultStrIn;
      var d := config.syms[s];
      var base := d.kind.base;
      var range := ActiveRange(s, base);
      if vis != 0 && user[s].StrVal? && user[s].str != "" && Within(range, OrZero(config.parse(base, user[s].str))) {
        return user[s].str;
      }
      ghost var before := cells;
      var v := DefaultString(s);
      GrowOn(old(cells), before, cells);
      assert Extends(RangeIn(config, before, base, d.ranges), RangeIn(config, cells, base, d.ranges)) by {
        RangesAreItems(d);
        ReadsItems(s);
        RangeGrows(config, before, cells, base, d.ranges);
      }
      val := Clamp(config, base, range, v);
    }

    method StrValue(s: Sym) returns (val: string)
      requires Valid() && s < |cells|
      modifies `cells
      ensures Valid() && AllGrow(old(cells), cells)
      ensures cells[s].str == Some(val)
      ensures val == Scratch(config, user, |config.syms|)[s].str
      decreases s, 7
    {
      hide Coherent, NumStrIn, DefaultStrIn;
      if cells[s].str.Some? {
        val := cells[s].str.value;
      } else {
        match config.syms[s].kind {
          case Name(n, _) =>
            val := n;
          case Str =>
            var vis := Visibility(s);
            if vis != 0 && user[s].StrVal? {
              val := user[s].str;
            } else {
              ghost var before := cells;
              val := DefaultString(s);
              GrowOn(old(cells), before, cells);
              assert Grows(before, cells, s);
            }
          case Num(_) =>
            var vis := Visibility(s);
            ghost var before := cells;
            val := NumValue(s, vis);
            GrowOn(old(cells), before, cells);
            assert Grows(before, cells, s);
          case _ =>
            var t := TriValue(s);
            val := TriStr(t);
        }
        ghost var before := cells;
        StoreStr(config, user, cells, s, val);
        cells := cells[s := cells[s].(str := Some(val))];
        GrowOn(old(cells), before, cells);
      }
      CachedValues(config, user, cells, s);
    }

    // ----- changing user values -----

    method InvalidateAll()
      requires |cells| == |config.syms|
      modifies `cells
      ensures |cells| == |config.syms|
      ensures forall s: nat :: s < |cells| ==> cells[s] == if Defined(config.syms[s].kind) then EMPTY else old(cells)[s]
    {
      var i := 0;
      while i < |cells|
        invariant i <= |cells| == |config.syms|
        invariant forall s: nat :: s < |cells| ==> cells[s] == if s < i && Defined(config.syms[s].kind) then EMPTY else old(cells)[s]
      {
        if Defined(config.syms[i].kind) {
          cells := cells[i := EMPTY];
        }
        i := i + 1;
      }
    }

    // Nothing is cached of x, and of what depends on x or on anything else that
    // was emptied no visibility is cached.
    method RecInvalidate(x: Sym)
      requires Shaped() && x < |cells| && Defined(config.syms[x].kind)
      modifies `cells
      ensures Shaped() && Emptied(config, old(cells), cells) && cells[x] == EMPTY
      ensures forall r: nat :: r < |cells| && (r == x || old(cells)[r] != cells[r]) ==> Silenced(config, cells, r)
      decreases |config.syms| - x
    {
      if x == config.modules {
        InvalidateAll();
      } else {
        cells := cells[x := EMPTY];
        var rest := dependents[x];
        while rest != {}
          invariant Shaped() && Emptied(config, old(cells), cells) && cells[x] == EMPTY && rest <= dependents[x]
          invariant forall d: nat :: d in dependents[x] - rest ==> cells[d].vis.None?
          invariant forall r: nat :: r < |cells| && r != x && old(cells)[r] != cells[r] ==> Silenced(config, cells, r)
        {
          var item :| item in rest;
          rest := rest - {item};
          if cells[item].vis.Some? {
            ghost var before := cells;
            RecInvalidate(item);
            StillSilenced(before, cells);
          }
        }
      }
    }

    lemma StillSilenced(a: seq<Cell>, b: seq<Cell>)
      requires Emptied(config, a, b)
      ensures forall r: nat :: Silenced(config, a, r) ==> Silenced(config, b, r)
    {
    }

    // Promptless symbols, which user values do not reach, keep their caches.
    method RecInvalidateIfHasPrompt(s: Sym, ghost was: seq<UserVal>)
      requires Shaped() && s < |cells| && |was| == |user| && user == was[s := user[s]] && Coherent(config, was, cells)
      requires forall s: nat :: s < |cells| && config.syms[s].kind.Const? ==> cells[s].tri == Some(config.syms[s].kind.tri)
      modifies `cells
      ensures Valid()
    {
      if config.syms[s].prompts != [] {
        RecInvalidate(s);
        EmptyingKeepsCoherent(config, user, was, old(cells), cells, s);
      } else {
        forall k | 0 <= k < |cells| ensures CoherentAt(config, user, cells, k) {
          assert CoherentAt(config, was, cells, k);
          if k == s {
            NoPromptNoUser(config, cells, config.syms[s], user[s], was[s], cells[s].vis, cells[s].tri);
          }
        }
      }
    }

    method SetValue(s: Sym, value: UserVal) returns (ok: bool)
      requires Valid() && s < |cells|
      modifies `cells, `user
      ensures Valid()
      ensures ok == (Normal(config.syms[s].kind, value) == old(user)[s] || Fits(config, config.syms[s].kind, Normal(config.syms[s].kind, value)))
      ensures user == if ok then old(user)[s := Normal(config.syms[s].kind, value)] else old(user)
    {
      var v := Normal(config.syms[s].kind, value);
      if v == user[s] {
        return true;
      }
      if !Fits(config, config.syms[s].kind, v) {
        return false;
      }
      user := user[s := v];
      RecInvalidateIfHasPrompt(s, old(user));
      ok := true;
    }

    method UnsetValue(s: Sym)
      requires Valid() && s < |cells|
      modifies `cells, `user
      ensures Valid() && user == old(user)[s := NoVal]
    {
      if user[s] != NoVal {
        user := user[s := NoVal];
        RecInvalidateIfHasPrompt(s, old(user));
      }
    }
  }
}

// What the values of KconfigSpec mean: each of them said by when it is at least m or y,
// or by the item it comes from.
module KconfigMeaning {
  import opened Common
  import opened KconfigSpec

  // ----- expressions -----

  // A conjunction is as true as both sides are, a disjunction as one of them, a negation
  // as its argument is not, and a symbol as its value.
  lemma ConnectivesMean(c: Config, t: seq<Vals>, a: Expr, b: Expr, k: Tri)
    ensures a.Ref? && a.sym < |t| ==> (k <= Eval(c, t, a) <==> k <= t[a.sym].tri)
    ensures k <= Eval(c, t, And(a, b)) <==> k <= Eval(c, t, a) && k <= Eval(c, t, b)
    ensures k <= Eval(c, t, Or(a, b)) <==> k <= Eval(c, t, a) || k <= Eval(c, t, b)
    ensures k <= Eval(c, t, Not(a)) <==> Eval(c, t, a) <= 2 - k
  {
  }

  // So the laws of a lattice with an involution hold.
  lemma DeMorgan(c: Config, t: seq<Vals>, a: Expr, b: Expr)
    ensures Eval(c, t, Not(And(a, b))) == Eval(c, t, Or(Not(a), Not(b)))
    ensures Eval(c, t, Not(Or(a, b))) == Eval(c, t, And(Not(a), Not(b)))
    ensures Eval(c, t, Not(Not(a))) == Eval(c, t, a)
  {
  }

  lemma Distributes(c: Config, t: seq<Vals>, a: Expr, b: Expr, d: Expr)
    ensures Eval(c, t, And(a, Or(b, d))) == Eval(c, t, Or(And(a, b), And(a, d)))
    ensures Eval(c, t, Or(a, And(b, d))) == Eval(c, t, And(Or(a, b), Or(a, d)))
  {
  }

  // A comparison is n or y. Exactly one of <, = and > is y, and the others follow.
  lemma ComparisonsAgree(c: Config, t: seq<Vals>, a: Sym, b: Sym)
    requires a < |t| <= |c.syms| && b < |t|
    ensures var (lt, eq, gt) := (Eval(c, t, Relation(Less, a, b)), Eval(c, t, Relation(Equal, a, b)), Eval(c, t, Relation(Greater, a, b)));
      && (lt, eq, gt) in {(2, 0, 0), (0, 2, 0), (0, 0, 2)}
      && Eval(c, t, Relation(LessEqual, a, b)) == 2 - gt
      && Eval(c, t, Relation(GreaterEqual, a, b)) == 2 - lt
      && Eval(c, t, Relation(Unequal, a, b)) == 2 - eq
  {
  }

  // The number a symbol stands for: n, m and y are 0, 1 and 2, all else is read in the
  // base of its type, which is 0 for a name or a string.
  function Number(c: Config, t: seq<Vals>, s: Sym): Option<int>
    requires s < |t| <= |c.syms|
  {
    match c.syms[s].kind
    case Const(_) => Some(t[s].tri)
    case Bool => Some(t[s].tri)
    case Tristate => Some(t[s].tri)
    case Num(base) => c.parse(base, t[s].str)
    case _ => c.parse(0, t[s].str)
  }

  // Two symbols of which one is no string compare as numbers if they stand for numbers,
  // and otherwise, as two strings do, by their text.
  lemma ComparisonMeans(c: Config, t: seq<Vals>, a: Sym, b: Sym)
    requires a < |t| <= |c.syms| && b < |t|
    ensures var numbers := Number(c, t, a).Some? && Number(c, t, b).Some? && (c.syms[a].kind.Str? ==> !c.syms[b].kind.Str?);
      && (Eval(c, t, Relation(Less, a, b)) != 0 <==>
            if numbers then Number(c, t, a).value < Number(c, t, b).value else c.strcmp(t[a].str, t[b].str) < 0)
      && (Eval(c, t, Relation(Equal, a, b)) != 0 <==>
            if numbers then Number(c, t, a).value == Number(c, t, b).value else c.strcmp(t[a].str, t[b].str) == 0)
  {
  }

  // ----- prompts and defaults -----

  lemma {:induction false} MaxMeans(c: Config, t: seq<Vals>, es: seq<Expr>, k: Tri)
    ensures 0 < k ==> (k <= MaxOf(c, t, es) <==> exists e :: e in es && k <= Eval(c, t, e))
    decreases |es|
  {
    if es != [] {
      var (init, last) := (es[..|es| - 1], es[|es| - 1]);
      MaxMeans(c, t, init, k);
      assert last in es && forall e :: e in init ==> e in es;
      if e :| e in es && k <= Eval(c, t, e) { assert e in init || e == last; }
    }
  }

  // MODULES is not n.
  predicate ModulesOn(c: Config, t: seq<Vals>) { c.modules < |t| && t[c.modules].tri > 0 }

  // A symbol is visible as far as its best prompt, and a bool, or a tristate without
  // modules, wholly or not at all.
  lemma VisibilityMeans(c: Config, t: seq<Vals>, d: SymDef, k: Tri)
    requires 0 < k
    ensures k <= VisOf(c, t, d) <==>
      exists e :: e in d.prompts && (if d.kind.Tristate? && ModulesOn(c, t) then k else 1) <= Eval(c, t, e)
  {
    MaxMeans(c, t, d.prompts, 1);
    MaxMeans(c, t, d.prompts, 2);
    assert k == 1 || k == 2;
  }

  // No default before the i-th one is in force.
  ghost predicate IsFirst(c: Config, t: seq<Vals>, conds: seq<Expr>, i: nat) {
    i < |conds| && Eval(c, t, conds[i]) != 0 && forall j :: 0 <= j < i ==> Eval(c, t, conds[j]) == 0
  }

  function Conds<T>(ds: seq<(T, Expr)>): (r: seq<Expr>)
    ensures |r| == |ds| && forall i :: 0 <= i < |r| ==> r[i] == ds[i].1
  {
    seq(|ds|, i requires 0 <= i < |ds| => ds[i].1)
  }

  // The default of a bool or tristate symbol is the first one in force, as far as its
  // condition goes; without one it is n.
  lemma {:induction false} DefaultMeans(c: Config, t: seq<Vals>, ds: seq<(Expr, Expr)>, i: nat, k: Tri)
    ensures IsFirst(c, t, Conds(ds), i) ==> (k <= DefaultOf(c, t, ds) <==> k <= Eval(c, t, ds[i].0) && k <= Eval(c, t, ds[i].1))
    ensures (forall d :: d in ds ==> Eval(c, t, d.1) == 0) ==> DefaultOf(c, t, ds) == 0
    decreases ds
  {
    if ds != [] && Eval(c, t, ds[0].1) == 0 {
      if 0 < i {
        RestIsFirst(c, t, ds, i);
        DefaultMeans(c, t, ds[1..], i - 1, k);
      } else {
        DefaultMeans(c, t, ds[1..], 0, k);
      }
    }
  }

  lemma RestIsFirst<T>(c: Config, t: seq<Vals>, ds: seq<(T, Expr)>, i: nat)
    requires ds != [] && 0 < i
    ensures IsFirst(c, t, Conds(ds), i) ==> IsFirst(c, t, Conds(ds[1..]), i - 1)
  {
    if IsFirst(c, t, Conds(ds), i) {
      forall j | 0 <= j < i - 1 ensures Eval(c, t, Conds(ds[1..])[j]) == 0 { assert Conds(ds)[j + 1] == Conds(ds[1..])[j]; }
    }
  }

  // The default of a string, and the range of a number, likewise.
  lemma {:induction false} DefaultStrMeans(c: Config, t: seq<Vals>, ds: seq<(Sym, Expr)>, i: nat)
    ensures IsFirst(c, t, Conds(ds), i) && ds[i].0 < |t| ==> DefaultStr(c, t, ds) == t[ds[i].0].str
    ensures (forall d :: d in ds ==> Eval(c, t, d.1) == 0) ==> DefaultStr(c, t, ds) == ""
    decreases ds
  {
    if ds != [] && Eval(c, t, ds[0].1) == 0 {
      if 0 < i {
        RestIsFirst(c, t, ds, i);
        DefaultStrMeans(c, t, ds[1..], i - 1);
      } else {
        DefaultStrMeans(c, t, ds[1..], 0);
      }
    }
  }

  function RangeConds(rs: seq<(Sym, Sym, Expr)>): (r: seq<Expr>)
    ensures |r| == |rs| && forall i :: 0 <= i < |r| ==> r[i] == rs[i].2
  {
    seq(|rs|, i requires 0 <= i < |rs| => rs[i].2)
  }

  // What is no number counts as 0.
  function NumberOr0(c: Config, base: nat, text: string): int {
    match c.parse(base, text)
    case Some(n) => n
    case None => 0
  }

  lemma {:induction false} RangeMeans(c: Config, t: seq<Vals>, base: nat, rs: seq<(Sym, Sym, Expr)>, i: nat)
    ensures IsFirst(c, t, RangeConds(rs), i) && rs[i].0 < |t| && rs[i].1 < |t| ==>
      RangeOf(c, t, base, rs) == Some((NumberOr0(c, base, t[rs[i].0].str), NumberOr0(c, base, t[rs[i].1].str)))
    ensures (forall r :: r in rs ==> Eval(c, t, r.2) == 0) ==> RangeOf(c, t, base, rs) == None
    decreases rs
  {
    if rs != [] && Eval(c, t, rs[0].2) == 0 {
      if 0 < i {
        forall j | IsFirst(c, t, RangeConds(rs), i) && 0 <= j < i - 1 ensures Eval(c, t, RangeConds(rs[1..])[j]) == 0 {
          assert RangeConds(rs)[j + 1] == RangeConds(rs[1..])[j];
        }
        RangeMeans(c, t, base, rs[1..], i - 1);
      } else {
        RangeMeans(c, t, base, rs[1..], 0);
      }
    }
  }

  // ----- bool and tristate values -----

  // What a bool or tristate symbol would be without selects: what the user wants, as far
  // as it is visible, or the default or, if the dependencies allow it, what implies it.
  lemma OwnMeans(c: Config, t: seq<Vals>, d: SymDef, u: UserVal, vis: Tri, k: Tri)
    ensures 0 < k ==> (k <= OwnOf(c, t, d, u, vis) <==>
      if vis != 0 && u.TriVal? then k <= u.tri && k <= vis
      else k <= DefaultOf(c, t, d.defaults) || (Eval(c, t, d.directDep) != 0 && k <= Eval(c, t, d.weakRevDep)))
  {
  }

  // The least value that counts as k: m is enough for y if the symbol is bool, counts as
  // bool, or is implied by y.
  function Least(c: Config, t: seq<Vals>, d: SymDef, k: Tri): Tri {
    if k == 2 && (d.kind.Bool? || !ModulesOn(c, t) || Eval(c, t, d.weakRevDep) == 2) then 1 else k
  }

  // A select raises it: the value is at least k if the select is, or if the own value is.
  lemma TriMeans(c: Config, t: seq<Vals>, d: SymDef, u: UserVal, vis: Tri, k: Tri)
    requires (d.kind.Bool? || d.kind.Tristate?) && 0 < k
    ensures var l := Least(c, t, d, k);
      k <= TriValOf(c, t, d, u, vis) <==>
        || l <= Eval(c, t, d.revDep)
        || (if vis != 0 && u.TriVal? then l <= u.tri && l <= vis
            else l <= DefaultOf(c, t, d.defaults) || (Eval(c, t, d.directDep) != 0 && l <= Eval(c, t, d.weakRevDep)))
  {
    OwnMeans(c, t, d, u, vis, 1);
    OwnMeans(c, t, d, u, vis, 2);
    assert k == 1 || k == 2;
  }

  // The constants n, m and y are themselves, and what has a text and no value is n.
  lemma OthersMean(c: Config, t: seq<Vals>, d: SymDef, u: UserVal, vis: Tri)
    ensures d.kind.Const? ==> TriValOf(c, t, d, u, vis) == d.kind.tri
    ensures d.kind.Name? || d.kind.Str? || d.kind.Num? ==> TriValOf(c, t, d, u, vis) == 0
  {
  }

  lemma {:induction false} ScratchAt(c: Config, user: seq<UserVal>, s: Sym, n: nat)
    requires s < n <= |c.syms| == |user|
    ensures Scratch(c, user, n)[s] == ValsOf(c, Scratch(c, user, s), c.syms[s], user[s])
  {
    if s + 1 < n { ScratchAt(c, user, s, n - 1); }
  }

  // So for every bool or tristate symbol of a configuration: a select is a lower bound; it
  // is n exactly if nothing selects it and what the user asked for, or else its default
  // and what implies it, is n; and a visible one that nothing selects has the value the
  // user gave it, except that m becomes y where there is no m.
  lemma SymbolMeans(c: Config, user: seq<UserVal>, s: Sym, n: nat)
    requires s < n <= |c.syms| == |user| && (c.syms[s].kind.Bool? || c.syms[s].kind.Tristate?)
    ensures var (t, d, v, u) := (Scratch(c, user, s), c.syms[s], Scratch(c, user, n)[s], user[s]);
      && Eval(c, t, d.revDep) <= v.tri
      && (v.tri == 0 <==>
            && Eval(c, t, d.revDep) == 0
            && if v.vis != 0 && u.TriVal? then u.tri == 0
               else DefaultOf(c, t, d.defaults) == 0 && (Eval(c, t, d.directDep) == 0 || Eval(c, t, d.weakRevDep) == 0))
      && (v.vis == 2 && u.TriVal? && Eval(c, t, d.revDep) == 0 && u.tri != 1 ==> v.tri == u.tri)
      && (v.vis == 2 && u.TriVal? && Eval(c, t, d.revDep) == 0 && u.tri == 1 ==> v.tri == if Least(c, t, d, 2) == 1 then 2 else 1)
      && v.str == ["n", "m", "y"][v.tri]
  {
    var (t, d, u) := (Scratch(c, user, s), c.syms[s], user[s]);
    ScratchAt(c, user, s, n);
    var vis := VisOf(c, t, d);
    TriMeans(c, t, d, u, vis, 1);
    TriMeans(c, t, d, u, vis, 2);
    hide VisOf, TriValOf, DefaultOf, Eval;
  }

  // ----- strings and numbers -----

  function Distance(a: int, b: int): nat { if a < b then b - a else a - b }

  // Python prints numbers so that it reads them back.
  ghost predicate Reads(c: Config, base: nat) { forall n: int :: c.parse(base, c.show(base, n)) == Some(n) }

  // A number the user gave stands if it is visible and in the range in force. Otherwise
  // it is the default, or the number of the range nearest to it; so it never leaves
  // the range.
  lemma NumberMeans(c: Config, t: seq<Vals>, d: SymDef, u: UserVal, vis: Tri, tri: Tri, m: int)
    requires d.kind.Num? && Reads(c, d.kind.base)
    ensures var (base, val) := (d.kind.base, StrValOf(c, t, d, u, vis, tri));
      var (range, default_) := (RangeOf(c, t, base, d.ranges), DefaultStr(c, t, d.strDefaults));
      var (n, n0) := (NumberOr0(c, base, val), NumberOr0(c, base, default_));
      var asked := vis != 0 && u.StrVal? && u.str != "";
      && (range.Some? && range.value.0 <= range.value.1 ==> range.value.0 <= n <= range.value.1)
      && (asked && (range.Some? ==> range.value.0 <= NumberOr0(c, base, u.str) <= range.value.1) ==> val == u.str)
      && (!asked && range.None? ==> val == default_)
      && (range.Some? && !(asked && range.value.0 <= NumberOr0(c, base, u.str) <= range.value.1) ==>
            && (range.value.0 <= n0 <= range.value.1 ==> val == default_)
            && (range.value.0 <= m <= range.value.1 ==> Distance(n, n0) <= Distance(m, n0)))
  {
  }

  // The text of a string symbol is what the user gave, if it is visible, else its default;
  // that of a name is the name.
  lemma TextMeans(c: Config, t: seq<Vals>, d: SymDef, u: UserVal, vis: Tri, tri: Tri)
    ensures d.kind.Str? ==> StrValOf(c, t, d, u, vis, tri) == if vis != 0 && u.StrVal? then u.str else DefaultStr(c, t, d.strDefaults)
    ensures d.kind.Name? ==> StrValOf(c, t, d, u, vis, tri) == d.kind.name
    ensures Boolish(d.kind) ==> StrValOf(c, t, d, u, vis, tri) == ["n", "m", "y"][tri]
  {
  }

  // ----- set_value -----

  function Text(v: Tri): string { ["n", "m", "y"][v] }

  // A bool takes n and y, a tristate m as well, each as a number or by its letter; a string
  // takes any text, and a number a text that reads as one, if it is hex not a negative one.
  lemma AcceptedMeans(c: Config, k: Kind, value: UserVal)
    ensures k.Bool? ==> (Fits(c, k, Normal(k, value)) <==> exists v: Tri :: v != 1 && (value == TriVal(v) || value == StrVal(Text(v))))
    ensures k.Tristate? ==> (Fits(c, k, Normal(k, value)) <==> exists v: Tri :: value == TriVal(v) || value == StrVal(Text(v)))
    ensures k.Str? ==> (Fits(c, k, Normal(k, value)) <==> value.StrVal?)
    ensures k.Num? ==> (Fits(c, k, Normal(k, value)) <==>
      value.StrVal? && c.parse(k.base, value.str).Some? && (k.base == 16 ==> c.parse(16, value.str).value >= 0))
  {
    assert Text(0) == "n" && Text(1) == "m" && Text(2) == "y";
  }

  // The letter means the number, and all else is taken as it is.
  lemma NormalMeans(k: Kind, value: UserVal, v: Tri)
    ensures k.Bool? || k.Tristate? ==> Normal(k, StrVal(Text(v))) == TriVal(v)
    ensures k.Str? || k.Num? || value.TriVal? ==> Normal(k, value) == value
  {
  }

  lemma {:induction false} ScratchBefore(c: Config, user: seq<UserVal>, s: Sym, value: UserVal, n: nat)
    requires n <= s < |c.syms| == |user|
    ensures Scratch(c, user[s := value], n) == Scratch(c, user, n)
  {
    if n > 0 { ScratchBefore(c, user, s, value, n - 1); }
  }

  // What is set is read: a wholly visible bool or tristate symbol that nothing selects
  // has the value given to it, or y if that is m and counts as y.
  lemma SetIsRead(c: Config, user: seq<UserVal>, s: Sym, v: Tri, n: nat)
    requires s < n <= |c.syms| == |user| && (c.syms[s].kind.Bool? || c.syms[s].kind.Tristate?)
    requires Scratch(c, user, n)[s].vis == 2 && Eval(c, Scratch(c, user, s), c.syms[s].revDep) == 0
    ensures var r := Scratch(c, user[s := TriVal(v)], n)[s];
      r.vis == 2 && r.tri == if v == 1 && Least(c, Scratch(c, user, s), c.syms[s], 2) == 1 then 2 else v
  {
    hide Eval, Least;
    ScratchBefore(c, user, s, TriVal(v), s);
    ScratchAt(c, user, s, n);
    ScratchAt(c, user[s := TriVal(v)], s, n);
    SymbolMeans(c, user[s := TriVal(v)], s, n);
  }
}

// Symbols of kconfiglib.py without choices: the values a configuration gives
// them, computed from scratch.
module KconfigSpec {
  import opened Common

  type Sym = nat

  // n, m and y as 0, 1 and 2.
  type Tri = t: nat | t <= 2

  datatype Rel = Equal | Unequal | Less | LessEqual | Greater | GreaterEqual

  datatype Expr =
    | Ref(sym: Sym)
    | And(left: Expr, right: Expr)
    | Or(left: Expr, right: Expr)
    | Not(arg: Expr)
    | Relation(rel: Rel, a: Sym, b: Sym)

  // Const is n, m or y. Name is a quoted string or an undefined symbol: its string
  // value is its name.
  datatype Kind = Const(tri: Tri) | Name(name: string, quoted: bool) | Bool | Tristate | Str | Num(base: nat)

  // A range or a default of an int, hex or string symbol takes its value from
  // other symbols.
  datatype SymDef = SymDef(
    kind: Kind,
    prompts: seq<Expr>,
    defaults: seq<(Expr, Expr)>,
    strDefaults: seq<(Sym, Expr)>,
    ranges: seq<(Sym, Sym, Expr)>,
    revDep: Expr, weakRevDep: Expr, directDep: Expr)

  // parse and show are Python's conversions between strings and numbers in a
  // base, strcmp its string order.
  datatype Config = Config(
    syms: seq<SymDef>,
    modules: Sym,
    parse: (nat, string) -> Option<int>,
    show: (nat, int) -> string,
    strcmp: (string, string) -> int)

  datatype UserVal = NoVal | TriVal(tri: Tri) | StrVal(str: string)

  function TriStr(v: Tri): string { if v == 0 then "n" else if v == 1 then "m" else "y" }

  predicate Boolish(k: Kind) { k.Const? || k.Bool? || k.Tristate? }

  function BaseOf(k: Kind): nat { if k.Num? then k.base else 0 }

  function Holds(rel: Rel, comp: int): bool {
    match rel
    case Equal => comp == 0
    case Unequal => comp != 0
    case Less => comp < 0
    case LessEqual => comp <= 0
    case Greater => comp > 0
    case GreaterEqual => comp >= 0
  }

  function TriOf(b: bool): Tri { if b then 2 else 0 }

  function MinT(a: Tri, b: Tri): Tri { if a < b then a else b }

  function MaxT(a: Tri, b: Tri): Tri { if a < b then b else a }

  // ----- which symbols an item mentions -----

  function Refs(e: Expr): set<Sym> {
    match e
    case Ref(s) => {s}
    case And(l, r) => Refs(l) + Refs(r)
    case Or(l, r) => Refs(l) + Refs(r)
    case Not(x) => Refs(x)
    case Relation(_, a, b) => {a, b}
  }

  function DefaultItems(ds: seq<(Expr, Expr)>): seq<Expr> {
    if ds == [] then [] else [ds[0].0, ds[0].1] + DefaultItems(ds[1..])
  }

  function StrItems(ds: seq<(Sym, Expr)>): seq<Expr> {
    if ds == [] then [] else [Ref(ds[0].0), ds[0].1] + StrItems(ds[1..])
  }

  function RangeItems(rs: seq<(Sym, Sym, Expr)>): seq<Expr> {
    if rs == [] then [] else [Ref(rs[0].0), Ref(rs[0].1), rs[0].2] + RangeItems(rs[1..])
  }

  // Every expression in the properties of a symbol.
  function Items(d: SymDef): seq<Expr> {
    d.prompts + DefaultItems(d.defaults) + StrItems(d.strDefaults) + [d.revDep, d.weakRevDep] + RangeItems(d.ranges) + [d.directDep]
  }

  ghost predicate Mentions(d: SymDef, r: Sym) { exists e :: e in Items(d) && r in Refs(e) }

  predicate Defined(k: Kind) { !k.Const? && !k.Name? }

  predicate Constant(k: Kind) { k.Const? || (k.Name? && k.quoted) }

  // Symbols are numbered so that each mentions, and the type of each tristate
  // depends on, lower numbers only: there is no dependency loop.
  ghost predicate Acyclic(c: Config) {
    && (forall s: nat, r: nat :: s < |c.syms| && Mentions(c.syms[s], r) ==> r < s)
    && c.modules < |c.syms|
    && (forall s: nat :: s < |c.syms| && c.syms[s].kind.Tristate? ==> c.modules < s)
    && (forall s: nat :: s < |c.syms| && !Defined(c.syms[s].kind) ==> c.syms[s].prompts == [])
  }

  // ----- values from scratch -----

  datatype Vals = Vals(vis: Tri, tri: Tri, str: string)

  function NumOf(c: Config, k: Kind, v: Vals): Option<int> {
    if Boolish(k) then Some(v.tri) else c.parse(BaseOf(k), v.str)
  }

  function Compare(c: Config, ka: Kind, va: Vals, kb: Kind, vb: Vals): int {
    if !(ka.Str? && kb.Str?) && NumOf(c, ka, va).Some? && NumOf(c, kb, vb).Some? then
      NumOf(c, ka, va).value - NumOf(c, kb, vb).value
    else
      c.strcmp(va.str, vb.str)
  }

  // The value of an expression over the values t of the symbols.
  function Eval(c: Config, t: seq<Vals>, e: Expr): Tri {
    match e
    case Ref(s) => if s < |t| then t[s].tri else 0
    case And(l, r) => MinT(Eval(c, t, l), Eval(c, t, r))
    case Or(l, r) => MaxT(Eval(c, t, l), Eval(c, t, r))
    case Not(x) => 2 - Eval(c, t, x)
    case Relation(rel, a, b) =>
      if a < |t| <= |c.syms| && b < |t| then TriOf(Holds(rel, Compare(c, c.syms[a].kind, t[a], c.syms[b].kind, t[b])))
      else 0
  }

  function MaxOf(c: Config, t: seq<Vals>, es: seq<Expr>): Tri {
    if es == [] then 0 else MaxT(MaxOf(c, t, es[..|es| - 1]), Eval(c, t, es[|es| - 1]))
  }

  // A tristate symbol counts as bool while MODULES is n.
  predicate IsTristate(c: Config, t: seq<Vals>, k: Kind) {
    k.Tristate? && c.modules < |t| && t[c.modules].tri != 0
  }

  function VisOf(c: Config, t: seq<Vals>, d: SymDef): Tri {
    var v := MaxOf(c, t, d.prompts);
    if v == 1 && !IsTristate(c, t, d.kind) then 2 else v
  }

  // The first default whose condition is not n, limited by the condition.
  function DefaultOf(c: Config, t: seq<Vals>, ds: seq<(Expr, Expr)>): Tri {
    if ds == [] then 0
    else if Eval(c, t, ds[0].1) != 0 then MinT(Eval(c, t, ds[0].0), Eval(c, t, ds[0].1))
    else DefaultOf(c, t, ds[1..])
  }

  // The value of a bool or tristate symbol before selects: what the user asked for
  // as far as it is visible, or else its default and what implies it.
  function OwnOf(c: Config, t: seq<Vals>, d: SymDef, u: UserVal, vis: Tri): Tri {
    if vis != 0 && u.TriVal? then MinT(u.tri, vis)
    else if Eval(c, t, d.directDep) != 0 then MaxT(Eval(c, t, d.weakRevDep), DefaultOf(c, t, d.defaults))
    else DefaultOf(c, t, d.defaults)
  }

  function TriValOf(c: Config, t: seq<Vals>, d: SymDef, u: UserVal, vis: Tri): Tri {
    if d.kind.Const? then d.kind.tri
    else if !Boolish(d.kind) then 0
    else
      var v := MaxT(Eval(c, t, d.revDep), OwnOf(c, t, d, u, vis));
      if v == 1 && (!IsTristate(c, t, d.kind) || Eval(c, t, d.weakRevDep) == 2) then 2 else v
  }

  function StrAt(t: seq<Vals>, s: Sym): string { if s < |t| then t[s].str else "" }

  // The string of the first default whose condition is not n.
  function DefaultStr(c: Config, t: seq<Vals>, ds: seq<(Sym, Expr)>): string {
    if ds == [] then "" else if Eval(c, t, ds[0].1) != 0 then StrAt(t, ds[0].0) else DefaultStr(c, t, ds[1..])
  }

  function OrZero(o: Option<int>): int { if o.Some? then o.value else 0 }

  // The range in force for an int or hex symbol.
  function RangeOf(c: Config, t: seq<Vals>, base: nat, rs: seq<(Sym, Sym, Expr)>): Option<(int, int)> {
    if rs == [] then None
    else if Eval(c, t, rs[0].2) != 0 then
      Some((OrZero(c.parse(base, StrAt(t, rs[0].0))), OrZero(c.parse(base, StrAt(t, rs[0].1)))))
    else RangeOf(c, t, base, rs[1..])
  }

  predicate Within(range: Option<(int, int)>, n: int) { range.Some? ==> range.value.0 <= n <= range.value.1 }

  function Clamp(c: Config, base: nat, range: Option<(int, int)>, val: string): string {
    var n := OrZero(c.parse(base, val));
    if range.Some? && n < range.value.0 then c.show(base, range.value.0)
    else if range.Some? && range.value.1 < n then c.show(base, range.value.1)
    else val
  }

  function StrValOf(c: Config, t: seq<Vals>, d: SymDef, u: UserVal, vis: Tri, tri: Tri): string {
    match d.kind
    case Name(n, _) => n
    case Str => if vis != 0 && u.StrVal? then u.str else DefaultStr(c, t, d.strDefaults)
    case Num(base) =>
      var range := RangeOf(c, t, base, d.ranges);
      if vis != 0 && u.StrVal? && u.str != "" && Within(range, OrZero(c.parse(base, u.str))) then u.str
      else Clamp(c, base, range, DefaultStr(c, t, d.strDefaults))
    case _ => TriStr(tri)
  }

  function ValsOf(c: Config, t: seq<Vals>, d: SymDef, u: UserVal): Vals {
    var vis := VisOf(c, t, d);
    var tri := TriValOf(c, t, d, u, vis);
    Vals(vis, tri, StrValOf(c, t, d, u, vis, tri))
  }

  // The values of the first n symbols, each from those before it.
  function Scratch(c: Config, user: seq<UserVal>, n: nat): (t: seq<Vals>)
    requires n <= |c.syms| == |user|
    ensures |t| == n
  {
    if n == 0 then []
    else
      var t := Scratch(c, user, n - 1);
      t + [ValsOf(c, t, c.syms[n - 1], user[n - 1])]
  }

  // ----- set_value -----

  // The form set_value gives to a value before looking at it.
  function Normal(k: Kind, value: UserVal): UserVal {
    if Boolish(k) && value == StrVal("n") then TriVal(0)
    else if Boolish(k) && value == StrVal("m") then TriVal(1)
    else if Boolish(k) && value == StrVal("y") then TriVal(2)
    else value
  }

  predicate Fits(c: Config, k: Kind, value: UserVal) {
    match k
    case Bool => value == TriVal(2) || value == TriVal(0)
    case Tristate => value.TriVal?
    case Const(_) => value.TriVal?
    case Str => value.StrVal?
    case Num(base) => value.StrVal? && c.parse(base, value.str).Some? && (base == 16 ==> c.parse(base, value.str).value >= 0)
    case Name(_, _) => false
  }
}

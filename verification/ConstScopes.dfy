/** Constants of POUs: each POU's own table over the globals, and the names `POU.NAME` under which the
    constants can be used from outside. */
module ConstScopes {
  import opened DepGraph
  import opened Consts
  import opened Wrappers

  datatype Pou = Pou(name: string, blocks: seq<VarBlock>)

  function Outside(p: Pou, d: Decl): string { MemberKey(p.name, d.name) }

  // ----- the names from outside --------------------------------------------

  function AddDecls(p: Pou, ds: seq<Decl>, t: Table, q: Table): Table {
    if ds == [] then q
    else
      var (r, d) := (AddDecls(p, ds[..|ds| - 1], t, q), ds[|ds| - 1]);
      if Key(d) in t then r[Outside(p, d) := t[Key(d)]] else r
  }

  function AddBlocks(p: Pou, bs: seq<VarBlock>, t: Table, q: Table): Table {
    if bs == [] then q
    else
      var (r, b) := (AddBlocks(p, bs[..|bs| - 1], t, q), bs[|bs| - 1]);
      if b.isConstant then AddDecls(p, b.declarations, t, r) else r
  }

  function AddPous(pous: seq<Pou>, scopes: seq<Table>): Table
    requires |scopes| == |pous|
  {
    if pous == [] then map[]
    else
      var n := |pous| - 1;
      AddBlocks(pous[n], pous[n].blocks, scopes[n], AddPous(pous[..n], scopes[..n]))
  }

  ghost predicate Tables(pous: seq<Pou>, globals: Table, scopes: seq<Table>) {
    |scopes| == |pous|
    && forall i :: 0 <= i < |pous| && DistinctNames(pous[i].blocks) ==> Least(pous[i].blocks, globals, scopes[i])
  }

  /** The constants of every POU, each from its own table. */
  method Qualify(pous: seq<Pou>, globals: Table) returns (q: Table)
    ensures exists scopes :: Tables(pous, globals, scopes) && q == AddPous(pous, scopes)
  {
    hide Least, DistinctNames;
    q := map[];
    ghost var scopes: seq<Table> := [];
    for n := 0 to |pous|
      invariant Tables(pous[..n], globals, scopes) && q == AddPous(pous[..n], scopes)
    {
      var t := AddConstants(pous[n].blocks, globals);
      q := QualifyPou(pous[n], t, q);
      assert pous[..n + 1][..n] == pous[..n] && (scopes + [t])[..n] == scopes;
      scopes := scopes + [t];
    }
    assert pous[..|pous|] == pous;
  }

  method QualifyPou(p: Pou, t: Table, q: Table) returns (r: Table)
    ensures r == AddBlocks(p, p.blocks, t, q)
  {
    r := q;
    for i := 0 to |p.blocks|
      invariant r == AddBlocks(p, p.blocks[..i], t, q)
    {
      assert p.blocks[..i + 1][..i] == p.blocks[..i];
      var b := p.blocks[i];
      if b.isConstant {
        ghost var before := r;
        for j := 0 to |b.declarations|
          invariant r == AddDecls(p, b.declarations[..j], t, before)
        {
          assert b.declarations[..j + 1][..j] == b.declarations[..j];
          var d := b.declarations[j];
          if Key(d) in t { r := r[Outside(p, d) := t[Key(d)]]; }
        }
        assert b.declarations[..|b.declarations|] == b.declarations;
      }
    }
    assert p.blocks[..|p.blocks|] == p.blocks;
  }

  /** An entry is the value of a constant of that name in the table of its POU. */
  ghost predicate Explained(pous: seq<Pou>, scopes: seq<Table>, k: string, v: int)
    requires |scopes| == |pous|
  {
    exists i: nat, d ::
      i < |pous| && Declares(pous[i].blocks, d) && k == Outside(pous[i], d) && Lookup(scopes[i], Key(d)) == Some(v)
  }

  ghost predicate AllExplained(pous: seq<Pou>, scopes: seq<Table>, q: Table)
    requires |scopes| == |pous|
  {
    forall k :: k in q ==> Explained(pous, scopes, k, q[k])
  }

  lemma {:induction false} DeclsExplained(pous: seq<Pou>, scopes: seq<Table>, i: nat, ds: seq<Decl>, q: Table)
    requires |scopes| == |pous| && i < |pous| && AllExplained(pous, scopes, q)
    requires forall d :: d in ds ==> Declares(pous[i].blocks, d)
    ensures var r := AddDecls(pous[i], ds, scopes[i], q);
            && AllExplained(pous, scopes, r) && q.Keys <= r.Keys
            && forall d :: d in ds && Key(d) in scopes[i] ==> Outside(pous[i], d) in r
  {
    hide Declares, Outside, AllExplained, Explained, Key;
    if ds != [] {
      var (front, d) := (ds[..|ds| - 1], ds[|ds| - 1]);
      assert ds == front + [d];
      DeclsExplained(pous, scopes, i, front, q);
      if Key(d) in scopes[i] { DeclExplained(pous, scopes, i, d, AddDecls(pous[i], front, scopes[i], q)); }
    }
  }

  lemma DeclExplained(pous: seq<Pou>, scopes: seq<Table>, i: nat, d: Decl, q: Table)
    requires |scopes| == |pous| && i < |pous| && AllExplained(pous, scopes, q)
    requires Declares(pous[i].blocks, d) && Key(d) in scopes[i]
    ensures AllExplained(pous, scopes, q[Outside(pous[i], d) := scopes[i][Key(d)]])
  {
    hide Declares, MemberKey;
    assert Explained(pous, scopes, Outside(pous[i], d), scopes[i][Key(d)]);
  }

  lemma {:induction false} BlocksExplained(pous: seq<Pou>, scopes: seq<Table>, i: nat, n: nat, q: Table)
    requires |scopes| == |pous| && i < |pous| && n <= |pous[i].blocks| && AllExplained(pous, scopes, q)
    ensures var r := AddBlocks(pous[i], pous[i].blocks[..n], scopes[i], q);
            && AllExplained(pous, scopes, r) && q.Keys <= r.Keys
            && forall d :: Declares(pous[i].blocks[..n], d) && Key(d) in scopes[i] ==> Outside(pous[i], d) in r
  {
    hide AllExplained, MemberKey, AddDecls;
    if n > 0 {
      var bs := pous[i].blocks;
      assert bs[..n][..n - 1] == bs[..n - 1];
      BlocksExplained(pous, scopes, i, n - 1, q);
      if bs[n - 1].isConstant {
        DeclsExplained(pous, scopes, i, bs[n - 1].declarations, AddBlocks(pous[i], bs[..n - 1], scopes[i], q));
      }
    }
  }

  lemma {:induction false} PousExplained(pous: seq<Pou>, scopes: seq<Table>, n: nat)
    requires |scopes| == |pous| && n <= |pous|
    ensures var r := AddPous(pous[..n], scopes[..n]);
            && AllExplained(pous, scopes, r)
            && forall i, d :: 0 <= i < n && Declares(pous[i].blocks, d) && Key(d) in scopes[i] ==>
                 Outside(pous[i], d) in r
  {
    hide AllExplained, Declares, MemberKey, AddBlocks;
    if n == 0 {
      NothingExplained(pous, scopes);
    } else {
      assert pous[..n][..n - 1] == pous[..n - 1] && scopes[..n][..n - 1] == scopes[..n - 1];
      PousExplained(pous, scopes, n - 1);
      BlocksExplained(pous, scopes, n - 1, |pous[n - 1].blocks|, AddPous(pous[..n - 1], scopes[..n - 1]));
      assert pous[n - 1].blocks[..|pous[n - 1].blocks|] == pous[n - 1].blocks;
    }
  }

  lemma NothingExplained(pous: seq<Pou>, scopes: seq<Table>)
    requires |scopes| == |pous|
    ensures AllExplained(pous, scopes, map[])
  {
  }

  /** No two constants of the POUs have the same name from outside. */
  ghost predicate Unambiguous(pous: seq<Pou>) {
    forall i, j, d, e ::
      (&& 0 <= i < |pous| && 0 <= j < |pous| && Declares(pous[i].blocks, d) && Declares(pous[j].blocks, e)
       && Outside(pous[i], d) == Outside(pous[j], e)) ==> i == j && d == e
  }

  /** Main result: a constant has a name from outside exactly when it has a value in its POU's own
      table over the globals, and then it is that value. */
  lemma OutsideIsInside(pous: seq<Pou>, scopes: seq<Table>, i: nat, d: Decl)
    requires |scopes| == |pous| && Unambiguous(pous) && i < |pous| && Declares(pous[i].blocks, d)
    ensures Lookup(AddPous(pous, scopes), Outside(pous[i], d)) == Lookup(scopes[i], Key(d))
  {
    hide Declares, MemberKey;
    assert pous[..|pous|] == pous && scopes[..|pous|] == scopes;
    PousExplained(pous, scopes, |pous|);
    var (q, k) := (AddPous(pous, scopes), Outside(pous[i], d));
    if k in q {
      assert Explained(pous, scopes, k, q[k]);
      var j: nat, e :| j < |pous| && Declares(pous[j].blocks, e) && k == Outside(pous[j], e)
                       && Lookup(scopes[j], Key(e)) == Some(q[k]);
      assert j == i && e == d;
    }
  }

  // ----- the POU's table over globals and outside names --------------------

  /** An initializer whose names all have values is the same in every larger table. */
  lemma {:induction false} EvalSame(e: Expr, t: Table, s: Table)
    requires Within(t, s) && Names(e) <= t.Keys
    ensures Eval(e, t) == Eval(e, s)
  {
    match e
    case Parenthesized(i) => EvalSame(i, t, s);
    case TypedLiteral(i) => EvalSame(i, t, s);
    case Neg(i) => EvalSame(i, t, s);
    case Binary(_, l, r) => EvalSame(l, t, s); EvalSame(r, t, s);
    case _ =>
  }

  /** The outside names are not names of constants here, nor of globals. */
  ghost predicate Apart(bs: seq<VarBlock>, globals: Table, q: Table) {
    globals.Keys !! q.Keys && forall d :: Declares(bs, d) ==> Key(d) !in q
  }

  /** With the outside names added every constant that had a value keeps it. */
  lemma OutsideAdds(bs: seq<VarBlock>, globals: Table, q: Table, t: Table, u: Table)
    requires Least(bs, globals, t) && Least(bs, globals + q, u) && Apart(bs, globals, q)
    ensures Within(t, u)
  {
    assert Within(globals, u);
    assert Solution(bs, globals, u);
  }

  /** What the initializer of k needs leads to another POU's constant. */
  ghost predicate LeadsOutside(bs: seq<VarBlock>, globals: Table, q: Table, k: string) {
    exists p, i :: Path(bs, globals, p) && p[0] == k && 0 <= i < |p| && p[i] in q
  }

  /** Main result: a constant that has a value inside its POU has none in the table over the globals, and
      so no name outside, exactly when its initializer leads to another POU's constant. */
  lemma OnlyInside(bs: seq<VarBlock>, globals: Table, q: Table, t: Table, u: Table, k: string)
    requires Least(bs, globals, t) && Least(bs, globals + q, u) && Apart(bs, globals, q) && DistinctNames(bs)
    requires k in u && k !in q
    ensures k !in t <==> LeadsOutside(bs, globals, q, k)
  {
    if k !in t { WayOut(bs, globals, q, t, u, k); }
    if LeadsOutside(bs, globals, q, k) {
      var p, i :| Path(bs, globals, p) && p[0] == k && 0 <= i < |p| && p[i] in q;
      if k in t {
        PathDefined(bs, globals, t, p, i);
      }
    }
  }

  lemma WayOut(bs: seq<VarBlock>, globals: Table, q: Table, t: Table, u: Table, k: string)
    requires Least(bs, globals, t) && Least(bs, globals + q, u) && Apart(bs, globals, q) && DistinctNames(bs)
    requires k in u && k !in t
    ensures LeadsOutside(bs, globals, q, k)
  {
    OutsideAdds(bs, globals, q, t, u);
    var p := Follow(bs, globals, t, k);
    if forall i :: 0 <= i < |p| ==> p[i] !in q {
      assert forall a, b :: a !in q && Needs(bs, globals, a, b) ==> Needs(bs, globals + q, a, b);
      assert Path(bs, globals + q, p);
      if Overflows(bs, globals, t, Last(p)) { StillOverflows(bs, globals, q, t, u, Last(p)); }
      BlockedUndefined(bs, globals + q, u, p);
      assert false;
    }
  }

  lemma StillOverflows(bs: seq<VarBlock>, globals: Table, q: Table, t: Table, u: Table, k: string)
    requires Within(t, u) && Overflows(bs, globals, t, k) && k !in q
    ensures Overflows(bs, globals + q, u, k)
  {
    var d :| Declares(bs, d) && Key(d) == k && d.init.Some?
             && Names(d.init.value) <= t.Keys && Eval(d.init.value, t).None?;
    EvalSame(d.init.value, t, u);
  }

  // ----- a local constant with the name of a global one --------------------

  ghost function Locals(bs: seq<VarBlock>): set<string> {
    set i, d | 0 <= i < |bs| && bs[i].isConstant && d in bs[i].declarations :: Key(d)
  }

  lemma LocalsDeclared(bs: seq<VarBlock>, d: Decl)
    requires Declares(bs, d)
    ensures Key(d) in Locals(bs)
  {
  }

  /** A constant whose initializer evaluates has the value of its own initializer exactly when the table
      that is extended does not hold another value under its name. */
  lemma OwnValueIff(bs: seq<VarBlock>, t0: Table, t: Table, d: Decl)
    requires Least(bs, t0, t) && DistinctNames(bs) && Declares(bs, d) && Init(d, t).Some?
    ensures Lookup(t, Key(d)) == Init(d, t) <==> (Key(d) in t0 ==> Init(d, t) == Some(t0[Key(d)]))
  {
  }

  /** Main result: the table is the one in which the constants of the blocks hide those of the same name
      (`s`) exactly when what they hide has their values already. */
  lemma ShadowingIff(bs: seq<VarBlock>, t0: Table, t: Table, s: Table)
    requires Least(bs, t0, t) && Least(bs, t0 - Locals(bs), s) && DistinctNames(bs)
    ensures t == s <==> forall k :: k in t0 && k in Locals(bs) ==> Lookup(s, k) == Some(t0[k])
  {
    if forall k :: k in t0 && k in Locals(bs) ==> Lookup(s, k) == Some(t0[k]) {
      hide Locals;
      assert Solution(bs, t0, s);
      assert Within(t, s);
      forall d | Declares(bs, d) && Key(d) !in t0 - Locals(bs) && Init(d, t).Some?
        ensures Key(d) in t && t[Key(d)] == Init(d, t).value
      {
        LocalsDeclared(bs, d);
        EvalMonotone(d.init.value, t, s);
        OwnValueIff(bs, t0, t, d);
      }
      assert Solution(bs, t0 - Locals(bs), t);
    }
  }
}

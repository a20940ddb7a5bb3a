/** What a subrange of a type that is not registered yet does to a unit: the rounds take it for a
    subrange of INT. When that keeps the declared layouts, what it does to success, and when the order
    of the declarations matters. */
module SubrangeBases {
  import opened Wrappers
  import opened DepGraph
  import opened TypeResolution
  import opened TypeLayouts

  const INT := Basic("INT")

  /** Some subrange in the layout is based on k. */
  ghost predicate Based(spec: Spec, k: string) {
    match spec
    case ArrayOf(_, e) => Based(e, k)
    case ReferenceTo(t) => Based(t, k)
    case SubrangeOf(b, _, _) => Elementary(b).None? && Fold(b) == k
    case StructOf(fs) => exists i :: 0 <= i < |fs| && Based(fs[i].spec, k)
    case _ => false
  }

  ghost predicate OwnBased(d: TypeDecl, k: string) { !d.spec.ReferenceTo? && Based(d.spec, k) }

  /** Declaration i takes k for INT. */
  ghost predicate Guesses(ds: seq<TypeDecl>, pous: Registry, i: nat, k: string) {
    i < |ds| && OwnBased(ds[i], k) && k !in Seen(ds, pous, i)
  }

  /** The unit as it is written. */
  function Declared(ds: seq<TypeDecl>, pous: Registry): Scope { Scope(EnvOf(ds), pous) }

  // ----- taking more or fewer names as known -------------------------------

  lemma {:induction false} TakenAll(spec: Spec)
    ensures Taken(spec, None) == spec
  {
    match spec
    case ArrayOf(_, e) => TakenAll(e);
    case ReferenceTo(t) => TakenAll(t);
    case StructOf(fs) =>
      forall i | 0 <= i < |fs| ensures Taken(fs[i].spec, None) == fs[i].spec { TakenAll(fs[i].spec); }
      assert Taken(spec, None).fields == fs;
    case _ =>
  }

  lemma ViewAll(env: map<string, TypeDecl>)
    ensures View(env, map[]) == env
  {
    hide Taken;
    forall k | k in env ensures TakenDecl(env[k], None) == env[k] { TakenAll(env[k].spec); }
  }

  /** Only what is known of the bases matters. */
  lemma {:induction false} TakenSame(spec: Spec, a: set<string>, b: set<string>)
    requires forall k :: Based(spec, k) ==> (k in a <==> k in b)
    ensures Taken(spec, Some(a)) == Taken(spec, Some(b))
  {
    hide Elementary;
    match spec
    case ArrayOf(_, e) => TakenSame(e, a, b);
    case ReferenceTo(t) => TakenSame(t, a, b);
    case SubrangeOf(n, _, _) => assert Based(spec, Fold(n)) <==> Elementary(n).None?;
    case StructOf(fs) =>
      forall i | 0 <= i < |fs| ensures Taken(fs[i].spec, Some(a)) == Taken(fs[i].spec, Some(b)) {
        forall k | Based(fs[i].spec, k) ensures k in a <==> k in b { assert Based(spec, k); }
        TakenSame(fs[i].spec, a, b);
      }
      assert Taken(spec, Some(a)).fields == Taken(spec, Some(b)).fields;
    case _ =>
  }

  /** A subrange taken for INT needs nothing. */
  lemma {:induction false} TakenNeedsLess(spec: Spec, known: Known, k: string)
    ensures Needs(Taken(spec, known), k) ==> Needs(spec, k)
    ensures Open(Taken(spec, known)) <==> Open(spec)
    decreases spec
  {
    hide Elementary;
    match spec
    case ArrayOf(_, e) => TakenNeedsLess(e, known, k);
    case ReferenceTo(t) => TakenNeedsLess(t, known, k);
    case SubrangeOf(_, _, _) => IntElementary();
    case StructOf(fs) =>
      TakenFields(spec, known);
      hide Taken;
      forall i | 0 <= i < |fs|
        ensures Needs(Taken(fs[i].spec, known), k) ==> Needs(fs[i].spec, k)
        ensures Open(Taken(fs[i].spec, known)) <==> Open(fs[i].spec)
      {
        TakenNeedsLess(fs[i].spec, known, k);
      }
    case _ =>
  }

  // ----- two views of one unit ---------------------------------------------

  /** One view takes k for INT, the other for what it is declared as. */
  predicate Apart(a: Known, b: Known, k: string) { !Knows(a, k) && Knows(b, k) }

  /** Where two views of a specification agree, a base on which they differ is laid out as an INT. */
  lemma {:induction false} SameThenInt(ua: Scope, ub: Scope, spec: Spec, a: Known, b: Known, k: string, x: nat, y: nat)
    requires Based(spec, k) && Apart(a, b, k) && Expand(ua, Taken(spec, a), x).Some?
    requires Expand(ub, Taken(spec, b), y) == Expand(ua, Taken(spec, a), x)
    ensures ExpandName(ub, k, y) == Some(INT)
    decreases spec
  {
    hide Elementary, ExpandName;
    match spec
    case ArrayOf(_, e) => SameThenInt(ua, ub, e, a, b, k, x, y);
    case ReferenceTo(t) => SameThenInt(ua, ub, t, a, b, k, x, y);
    case SubrangeOf(_, _, _) => IntElementary();
    case StructOf(fs) =>
      var i :| 0 <= i < |fs| && Based(fs[i].spec, k);
      var (fa, fb) := (Expand(ua, Taken(spec, a), x).value.fields, Expand(ub, Taken(spec, b), y).value.fields);
      assert fa[i].ty == fb[i].ty;
      SameThenInt(ua, ub, fs[i].spec, a, b, k, x, y);
    case _ =>
  }

  /** A view of a unit: which names each declaration knows, with all names where nothing is said. */
  function Viewed(env: map<string, TypeDecl>, pous: Registry, known: map<string, set<string>>): Scope {
    Scope(View(env, known), pous)
  }

  /** Every base on which view a is apart from view b is laid out as an INT there. */
  ghost predicate IntBases(env: map<string, TypeDecl>, pous: Registry, a: map<string, set<string>>,
      b: map<string, set<string>>, depth: nat)
  {
    forall m, k :: m in env && OwnBased(env[m], k) && Apart(KnownTo(a, m), KnownTo(b, m), k) ==>
      ExpandName(Viewed(env, pous, b), k, depth) == Some(INT)
  }

  /** Both ways. */
  ghost predicate Reconciled(env: map<string, TypeDecl>, pous: Registry, a: map<string, set<string>>,
      b: map<string, set<string>>, depth: nat)
  {
    IntBases(env, pous, a, b, depth) && IntBases(env, pous, b, a, depth)
  }

  lemma BaseAgrees(env: map<string, TypeDecl>, pous: Registry, a: map<string, set<string>>,
      b: map<string, set<string>>, m: string, spec: Spec, n: nat, depth: nat)
    requires Reconciled(env, pous, a, b, depth) && m in env && spec.SubrangeOf?
    requires forall k :: Based(spec, k) ==> OwnBased(env[m], k)
    requires Expand(Viewed(env, pous, a), Taken(spec, KnownTo(a, m)), n).Some?
    requires forall k :: ExpandName(Viewed(env, pous, a), k, n).Some? ==>
               ExpandName(Viewed(env, pous, b), k, n + depth) == ExpandName(Viewed(env, pous, a), k, n)
    ensures Expand(Viewed(env, pous, b), Taken(spec, KnownTo(b, m)), n + depth)
            == Expand(Viewed(env, pous, a), Taken(spec, KnownTo(a, m)), n)
  {
    hide Elementary, ExpandName, Viewed, KnownTo;
    var (ua, ub, k) := (Viewed(env, pous, a), Viewed(env, pous, b), Fold(spec.base));
    IntElementary();
    if Elementary(spec.base).None? {
      assert Based(spec, k);
      if Apart(KnownTo(a, m), KnownTo(b, m), k) {
        NameMonotone(ub, k, depth, n + depth);
      } else if Apart(KnownTo(b, m), KnownTo(a, m), k) {
        NameMonotone(ua, k, depth, n + depth);
        NameMonotone(ua, k, n, n + depth);
      }
    }
  }

  lemma FieldsExpand(u: Scope, spec: Spec, known: Known, n: nat)
    requires spec.StructOf?
    ensures var (fs, t) := (spec.fields, Expand(u, Taken(spec, known), n));
            && (t.Some? <==> forall i :: 0 <= i < |fs| ==> Expand(u, Taken(fs[i].spec, known), n).Some?)
            && (t.Some? ==> t.value.Struct? && |t.value.fields| == |fs|)
            && (t.Some? ==> forall i :: 0 <= i < |fs| ==>
                  Some(t.value.fields[i].ty) == Expand(u, Taken(fs[i].spec, known), n)
                  && t.value.fields[i].name == fs[i].name)
  {
    TakenFields(spec, known);
  }

  lemma {:induction false} SpecAgrees(env: map<string, TypeDecl>, pous: Registry, a: map<string, set<string>>,
      b: map<string, set<string>>, m: string, spec: Spec, n: nat, depth: nat)
    requires Reconciled(env, pous, a, b, depth) && m in env
    requires forall k :: Based(spec, k) ==> OwnBased(env[m], k)
    requires Expand(Viewed(env, pous, a), Taken(spec, KnownTo(a, m)), n).Some?
    ensures Expand(Viewed(env, pous, b), Taken(spec, KnownTo(b, m)), n + depth)
            == Expand(Viewed(env, pous, a), Taken(spec, KnownTo(a, m)), n)
    decreases n, 1, spec
  {
    hide Elementary, ExpandName, Viewed, KnownTo, Reconciled, OwnBased;
    var (ua, ub, ka, kb) := (Viewed(env, pous, a), Viewed(env, pous, b), KnownTo(a, m), KnownTo(b, m));
    match spec
    case Named(x) => if Elementary(x).None? { NameAgrees(env, pous, a, b, Fold(x), n, depth); }
    case ArrayOf(_, e) => SpecAgrees(env, pous, a, b, m, e, n, depth);
    case ReferenceTo(t) => SpecAgrees(env, pous, a, b, m, t, n, depth);
    case SubrangeOf(_, _, _) =>
      forall k | ExpandName(ua, k, n).Some? ensures ExpandName(ub, k, n + depth) == ExpandName(ua, k, n) {
        NameAgrees(env, pous, a, b, k, n, depth);
      }
      BaseAgrees(env, pous, a, b, m, spec, n, depth);
    case StructOf(fs) =>
      FieldsExpand(ua, spec, ka, n);
      FieldsExpand(ub, spec, kb, n + depth);
      forall i | 0 <= i < |fs|
        ensures Expand(ub, Taken(fs[i].spec, kb), n + depth) == Expand(ua, Taken(fs[i].spec, ka), n)
      {
        forall k | Based(fs[i].spec, k) ensures OwnBased(env[m], k) { assert Based(spec, k); }
        SpecAgrees(env, pous, a, b, m, fs[i].spec, n, depth);
      }
      assert Expand(ub, Taken(spec, kb), n + depth).value.fields == Expand(ua, Taken(spec, ka), n).value.fields;
    case _ =>
  }

  lemma {:induction false} NameAgrees(env: map<string, TypeDecl>, pous: Registry, a: map<string, set<string>>,
      b: map<string, set<string>>, k: string, n: nat, depth: nat)
    requires Reconciled(env, pous, a, b, depth) && ExpandName(Viewed(env, pous, a), k, n).Some?
    ensures ExpandName(Viewed(env, pous, b), k, n + depth) == ExpandName(Viewed(env, pous, a), k, n)
    decreases n, 0
  {
    hide Expand, Taken, Reconciled, Based;
    if k in env && !env[k].spec.ReferenceTo? {
      TakenReference(env[k].spec, KnownTo(a, k));
      TakenReference(env[k].spec, KnownTo(b, k));
      SpecAgrees(env, pous, a, b, k, env[k].spec, n - 1, depth);
    }
  }

  lemma {:induction false} BasedShape(u: Scope, spec: Spec, known: Known, k: string, x: nat)
    requires Based(spec, k) && Expand(u, Taken(spec, known), x).Some?
    ensures !Expand(u, Taken(spec, known), x).value.Enumeration?
  {
    hide Elementary, ExpandName;
    match spec
    case ReferenceTo(t) => BasedShape(u, t, known, k, x);
    case _ =>
  }

  lemma SameNameThenInt(env: map<string, TypeDecl>, pous: Registry, a: map<string, set<string>>,
      b: map<string, set<string>>, m: string, k: string, x: nat, y: nat)
    requires m in env && OwnBased(env[m], k) && Apart(KnownTo(a, m), KnownTo(b, m), k)
    requires ExpandName(Viewed(env, pous, a), m, x).Some?
    requires ExpandName(Viewed(env, pous, a), m, x) == ExpandName(Viewed(env, pous, b), m, y)
    ensures ExpandName(Viewed(env, pous, b), k, y) == Some(INT)
  {
    hide Expand, Taken, Based, Apart, Elementary;
    var (ua, ub, spec) := (Viewed(env, pous, a), Viewed(env, pous, b), env[m].spec);
    TakenReference(spec, KnownTo(a, m));
    TakenReference(spec, KnownTo(b, m));
    BasedShape(ua, spec, KnownTo(a, m), k, x - 1);
    BasedShape(ub, spec, KnownTo(b, m), k, y - 1);
    SameThenInt(ua, ub, spec, KnownTo(a, m), KnownTo(b, m), k, x - 1, y - 1);
    NameMonotone(ub, k, y - 1, y);
  }

  ghost predicate Reconcilable(env: map<string, TypeDecl>, pous: Registry, a: map<string, set<string>>,
      b: map<string, set<string>>)
  {
    exists depth: nat :: Reconciled(env, pous, a, b, depth)
  }

  ghost predicate SameLayouts(env: map<string, TypeDecl>, ra: Registry, rb: Registry) {
    forall k :: k in env ==> k in ra && k in rb && Erase(ra[k]) == Erase(rb[k])
  }

  /** Two tables with the layouts of two views agree exactly when the views can be reconciled. */
  lemma AgreeIff(env: map<string, TypeDecl>, pous: Registry, a: map<string, set<string>>,
      b: map<string, set<string>>, ra: Registry, rb: Registry)
    requires HasLayouts(Viewed(env, pous, a), ra) && HasLayouts(Viewed(env, pous, b), rb)
    ensures SameLayouts(env, ra, rb) <==> Reconcilable(env, pous, a, b)
  {
    hide ExpandName, Erase, OwnBased, Apart, KnownTo, TakenDecl;
    var (ua, ub) := (Viewed(env, pous, a), Viewed(env, pous, b));
    var x: nat :| LayoutsWithin(ua, ra, x);
    var y: nat :| LayoutsWithin(ub, rb, y);
    if SameLayouts(env, ra, rb) {
      IntOneWay(env, pous, a, b, ra, rb, x, y);
      IntOneWay(env, pous, b, a, rb, ra, y, x);
      assert Reconciled(env, pous, a, b, x + y);
    }
    if depth: nat :| Reconciled(env, pous, a, b, depth) {
      forall k | k in env ensures k in ra && k in rb && Erase(ra[k]) == Erase(rb[k]) {
        assert k in ua.env && k in ub.env;
        NameAgrees(env, pous, a, b, k, x, depth);
        if x + depth <= y { NameMonotone(ub, k, x + depth, y); } else { NameMonotone(ub, k, y, x + depth); }
      }
    }
  }

  lemma IntOneWay(env: map<string, TypeDecl>, pous: Registry, a: map<string, set<string>>,
      b: map<string, set<string>>, ra: Registry, rb: Registry, x: nat, y: nat)
    requires LayoutsWithin(Viewed(env, pous, a), ra, x) && LayoutsWithin(Viewed(env, pous, b), rb, y)
    requires SameLayouts(env, ra, rb)
    ensures IntBases(env, pous, a, b, x + y)
  {
    hide ExpandName, Erase, OwnBased, Apart, KnownTo, TakenDecl;
    var (ua, ub) := (Viewed(env, pous, a), Viewed(env, pous, b));
    forall m, k | m in env && OwnBased(env[m], k) && Apart(KnownTo(a, m), KnownTo(b, m), k)
      ensures ExpandName(ub, k, x + y) == Some(INT)
    {
      assert m in ua.env && m in ub.env;
      SameNameThenInt(env, pous, a, b, m, k, x, y);
      NameMonotone(ub, k, y, x + y);
    }
  }

  // ----- main results ------------------------------------------------------

  /** Every base taken for INT has the declared layout INT. */
  ghost predicate GuessesRight(ds: seq<TypeDecl>, pous: Registry, depth: nat) {
    forall i: nat, k :: Guesses(ds, pous, i, k) ==> ExpandName(Declared(ds, pous), k, depth) == Some(INT)
  }

  lemma GuessIff(ds: seq<TypeDecl>, pous: Registry, depth: nat)
    requires Distinct(ds)
    ensures GuessesRight(ds, pous, depth)
            <==> Reconciled(EnvOf(ds), pous, SeenIn(ds, pous, |ds|), map[], depth)
  {
    hide ExpandName, OwnBased, Seen, SeenIn, View;
    var (env, seen) := (EnvOf(ds), SeenIn(ds, pous, |ds|));
    EnvHolds(ds);
    ViewAll(env);
    assert Viewed(env, pous, map[]) == Declared(ds, pous);
    forall i: nat | i < |ds| ensures Key(ds[i]) in seen && seen[Key(ds[i])] == Seen(ds, pous, i) {
      SeenInHas(ds, pous, |ds|, i);
    }
    if GuessesRight(ds, pous, depth) {
      forall m, k | m in env && OwnBased(env[m], k) && Apart(KnownTo(seen, m), None, k)
        ensures ExpandName(Viewed(env, pous, map[]), k, depth) == Some(INT)
      {
        var i: nat :| i < |ds| && ds[i] == env[m];
        assert Guesses(ds, pous, i, k);
      }
    }
    if Reconciled(env, pous, seen, map[], depth) {
      forall i: nat, k | Guesses(ds, pous, i, k)
        ensures ExpandName(Declared(ds, pous), k, depth) == Some(INT)
      {
        var m := Key(ds[i]);
        assert ds[i] in ds && m in env && env[m] == ds[i];
        assert seen[m] == Seen(ds, pous, i);
        assert Apart(KnownTo(seen, m), KnownTo(map[], m), k);
        assert IntBases(env, pous, seen, map[], depth);
        assert OwnBased(env[m], k);
        assert ExpandName(Viewed(env, pous, map[]), k, depth) == Some(INT);
      }
    }
  }

  /** Main result: a unit that resolves has its declared layouts exactly when every base that was taken
      for INT is declared to have the layout of an INT. */
  lemma DeclaredLayouts(ds: seq<TypeDecl>, pous: Registry)
    requires Proper(ds, pous) && Register(ds, pous).Resolved?
    ensures HasLayouts(Declared(ds, pous), Register(ds, pous).reg)
            <==> exists depth: nat :: GuessesRight(ds, pous, depth)
  {
    hide Register, ExpandName, Erase, SeenIn, View, GuessesRight, Reconciled, ProperScope;
    var (env, seen, reg) := (EnvOf(ds), SeenIn(ds, pous, |ds|), Register(ds, pous).reg);
    var (ua, u) := (Viewed(env, pous, seen), Declared(ds, pous));
    ResolvesLayouts(ds, pous);
    ViewAll(env);
    if HasLayouts(u, reg) {
      AgreeIff(env, pous, seen, map[], reg, reg);
      var x: nat :| LayoutsWithin(u, reg, x);
      var depth: nat :| Reconciled(env, pous, seen, map[], depth);
      GuessIff(ds, pous, depth);
    }
    if depth: nat :| GuessesRight(ds, pous, depth) {
      GuessIff(ds, pous, depth);
      var x: nat :| LayoutsWithin(ua, reg, x);
      forall k | k in u.env ensures k in reg && ExpandName(u, k, x + depth) == Some(Erase(reg[k])) {
        ViewKeys(env, seen);
        NameAgrees(env, pous, seen, map[], k, x, depth);
      }
      assert LayoutsWithin(u, reg, x + depth);
    }
  }

  lemma ViewKeys(env: map<string, TypeDecl>, known: map<string, set<string>>)
    ensures View(env, known).Keys == env.Keys
  {
  }

  /** The dependency of a on b as it is written is one the rounds do not follow: b is only the base of
      subranges that a takes for subranges of INT. */
  ghost predicate Dropped(ds: seq<TypeDecl>, pous: Registry, a: string, b: string) {
    Link(Declared(ds, pous), a, b) && !Link(AsTaken(ds, pous), a, b)
  }

  lemma BlockedIff(ds: seq<TypeDecl>, pous: Registry, p: seq<string>)
    requires Proper(ds, pous)
    ensures Blocked(AsTaken(ds, pous), p)
            <==> Blocked(Declared(ds, pous), p) && !exists j :: 0 <= j < |p| - 1 && Dropped(ds, pous, p[j], p[j + 1])
  {
    hide Needs, Open, Taken, SeenIn, EnvOf;
    var (ua, u) := (AsTaken(ds, pous), Declared(ds, pous));
    ViewKeys(EnvOf(ds), SeenIn(ds, pous, |ds|));
    forall a, b ensures Link(ua, a, b) ==> Link(u, a, b) { LinkKept(ds, pous, a, b); }
    forall k ensures Missing(ua, k) <==> Missing(u, k) { LinkKept(ds, pous, k, k); }
    if Blocked(ua, p) { assert Path(u, p); }
    if Path(u, p) && !exists j :: 0 <= j < |p| - 1 && Dropped(ds, pous, p[j], p[j + 1]) {
      forall j | 0 <= j < |p| - 1 ensures Link(ua, p[j], p[j + 1]) { assert !Dropped(ds, pous, p[j], p[j + 1]); }
    }
  }

  lemma LinkKept(ds: seq<TypeDecl>, pous: Registry, a: string, b: string)
    ensures Link(AsTaken(ds, pous), a, b) ==> Link(Declared(ds, pous), a, b)
    ensures Missing(AsTaken(ds, pous), a) <==> Missing(Declared(ds, pous), a)
  {
    hide Needs, Open, Taken, SeenIn, EnvOf;
    if a in EnvOf(ds) {
      var known := KnownTo(SeenIn(ds, pous, |ds|), a);
      TakenReference(EnvOf(ds)[a].spec, known);
      TakenNeedsLess(EnvOf(ds)[a].spec, known, b);
    }
  }

  /** Main result: resolution succeeds exactly when every chain of dependencies, as they are written, that
      leads a declared type to a name without a layout or round in a circle passes a dropped one. */
  lemma SucceedsIffDropped(ds: seq<TypeDecl>, pous: Registry)
    requires Proper(ds, pous)
    ensures Register(ds, pous).Resolved?
            <==> forall p :: Blocked(Declared(ds, pous), p) && p[0] in EnvOf(ds) ==>
                   exists j :: 0 <= j < |p| - 1 && Dropped(ds, pous, p[j], p[j + 1])
  {
    hide Register, Blocked, Dropped, Proper, SeenIn, EnvOf;
    SucceedsIffUnblocked(ds, pous);
    ViewKeys(EnvOf(ds), SeenIn(ds, pous, |ds|));
    forall p
      ensures Blocked(AsTaken(ds, pous), p)
              <==> Blocked(Declared(ds, pous), p) && !exists j :: 0 <= j < |p| - 1 && Dropped(ds, pous, p[j], p[j + 1])
    {
      BlockedIff(ds, pous, p);
    }
  }

  lemma SameEnv(ds: seq<TypeDecl>, es: seq<TypeDecl>)
    requires Distinct(ds) && Distinct(es) && forall d :: d in ds <==> d in es
    ensures EnvOf(ds) == EnvOf(es)
  {
    EnvHolds(ds);
    EnvHolds(es);
    assert Keys(ds) == Keys(es);
    forall k | k in EnvOf(ds) ensures EnvOf(ds)[k] == EnvOf(es)[k] {
      assert EnvOf(ds)[k] in es;
    }
  }

  /** Main result: two orders of the declarations that both resolve give the same layouts exactly when
      every base that one of them takes for INT and the other does not has the layout INT in the other. */
  lemma OrderMatters(ds: seq<TypeDecl>, es: seq<TypeDecl>, pous: Registry)
    requires Proper(ds, pous) && Proper(es, pous) && forall d :: d in ds <==> d in es
    requires Register(ds, pous).Resolved? && Register(es, pous).Resolved?
    ensures SameLayouts(EnvOf(ds), Register(ds, pous).reg, Register(es, pous).reg)
            <==> Reconcilable(EnvOf(ds), pous, SeenIn(ds, pous, |ds|), SeenIn(es, pous, |es|))
  {
    hide Register, Erase, Reconcilable, SameLayouts, SeenIn, View, HasLayouts, EnvOf, ProperScope;
    SameEnv(ds, es);
    ResolvesLayouts(ds, pous);
    ResolvesLayouts(es, pous);
    AgreeIff(EnvOf(ds), pous, SeenIn(ds, pous, |ds|), SeenIn(es, pous, |es|),
      Register(ds, pous).reg, Register(es, pous).reg);
  }

  /** Main result: two orders in which the declarations are taken alike resolve together, with the same
      layouts. */
  lemma OrderIrrelevant(ds: seq<TypeDecl>, es: seq<TypeDecl>, pous: Registry)
    requires Proper(ds, pous) && Proper(es, pous) && AsTaken(ds, pous) == AsTaken(es, pous)
    ensures Register(ds, pous).Resolved? <==> Register(es, pous).Resolved?
    ensures Register(ds, pous).Resolved? ==> SameLayouts(EnvOf(ds), Register(ds, pous).reg, Register(es, pous).reg)
  {
    hide Register, Blocked, Erase, ExpandName, SeenIn, AsTaken, EnvOf, ProperScope;
    SucceedsIffUnblocked(ds, pous);
    SucceedsIffUnblocked(es, pous);
    if Register(ds, pous).Resolved? {
      var u := AsTaken(ds, pous);
      AsTakenProper(ds, pous);
      EnvHolds(ds);
      ResolvesLayouts(ds, pous);
      ResolvesLayouts(es, pous);
      var (r, s) := (Register(ds, pous).reg, Register(es, pous).reg);
      var a: nat :| LayoutsWithin(u, r, a);
      var b: nat :| LayoutsWithin(u, s, b);
      forall k | k in u.env ensures k in r && k in s && Erase(r[k]) == Erase(s[k]) {
        if a <= b { NameMonotone(u, k, a, b); } else { NameMonotone(u, k, b, a); }
      }
    }
  }

  /** Subranges of declared types are based on types declared before. */
  ghost predicate Backward(ds: seq<TypeDecl>) {
    forall i: nat, k :: i < |ds| && OwnBased(ds[i], k) && k in Keys(ds) ==> k in Keys(ds[..i])
  }

  /** Units in which subranges refer backwards only are taken alike. */
  lemma BackwardAlike(ds: seq<TypeDecl>, es: seq<TypeDecl>, pous: Registry)
    requires Proper(ds, pous) && Proper(es, pous) && Backward(ds) && Backward(es) && forall d :: d in ds <==> d in es
    ensures AsTaken(ds, pous) == AsTaken(es, pous)
  {
    hide Settled, Taken, OwnBased;
    SameEnv(ds, es);
    assert Keys(ds) == Keys(es);
    EnvHolds(ds);
    var (a, b) := (AsTaken(ds, pous), AsTaken(es, pous));
    forall k | k in EnvOf(ds) ensures a.env[k] == b.env[k] {
      BackwardTaken(ds, pous, k);
      BackwardTaken(es, pous, k);
    }
    assert a.env == b.env;
  }

  lemma BackwardTaken(ds: seq<TypeDecl>, pous: Registry, k: string)
    requires Proper(ds, pous) && Backward(ds) && k in EnvOf(ds)
    ensures k in AsTaken(ds, pous).env
    ensures AsTaken(ds, pous).env[k] == TakenDecl(EnvOf(ds)[k], Some(pous.Keys + Keys(ds)))
  {
    hide Settled, Taken, Based, AsTaken, ProperScope;
    EnvHolds(ds);
    var i :| 0 <= i < |ds| && ds[i] == EnvOf(ds)[k];
    AsTakenHas(ds, pous, i);
    assert ds[..|ds|] == ds;
    if !ds[i].spec.ReferenceTo? {
      forall m | Based(ds[i].spec, m) ensures m in Seen(ds, pous, i) <==> m in pous.Keys + Keys(ds) {
        assert OwnBased(ds[i], m);
        assert Keys(ds[..i]) <= Keys(ds);
      }
      TakenSame(ds[i].spec, Seen(ds, pous, i), pous.Keys + Keys(ds));
    }
  }

  // ----- a TYPE that is such a subrange ------------------------------------

  /** A subrange whose base is not known when its turn comes in the first round. */
  predicate Early(ds: seq<TypeDecl>, pous: Registry, i: nat) {
    && i < |ds| && ds[i].spec.SubrangeOf? && Elementary(ds[i].spec.base).None?
    && Fold(ds[i].spec.base) !in pous.Keys + Keys(ds[..i])
  }

  function OfInt(spec: Spec): Ty
    requires spec.SubrangeOf?
  {
    Subrange(INT, spec.low, spec.high)
  }

  lemma EarlySettled(ds: seq<TypeDecl>, pous: Registry, i: nat)
    requires Early(ds, pous, i)
    ensures Settled(ds, pous, i)
    ensures Taken(ds[i].spec, Some(Seen(ds, pous, i))) == SubrangeOf("INT", ds[i].spec.low, ds[i].spec.high)
  {
    hide Elementary;
    IntElementary();
  }

  lemma IntLayout(u: Scope, d: TypeDecl, low: int, high: int, n: nat, ty: Ty)
    requires d.spec == SubrangeOf("INT", low, high) && ExpandDecl(u, d, n) == Some(Erase(ty))
    ensures ty == Subrange(INT, low, high)
  {
    IntElementary();
    assert Erase(ty) == Subrange(INT, low, high);
  }

  /** A TYPE that is such a subrange is a subrange of INT, so it has the layout it declares exactly when
      its base is declared to have the layout of an INT. */
  lemma EarlySubrange(ds: seq<TypeDecl>, pous: Registry, i: nat, depth: nat)
    requires Proper(ds, pous) && Early(ds, pous, i) && Register(ds, pous).Resolved?
    ensures var (u, reg, spec) := (Declared(ds, pous), Register(ds, pous).reg, ds[i].spec);
            && Key(ds[i]) in reg && reg[Key(ds[i])] == OfInt(spec)
            && (Expand(u, spec, depth) == Some(Erase(reg[Key(ds[i])]))
                <==> ExpandName(u, Fold(spec.base), depth) == Some(INT))
  {
    hide Elementary, ProperScope, Keys, SeenIn, AsTaken, Settled, Seen, Register, Fold;
    var (ua, k) := (AsTaken(ds, pous), Key(ds[i]));
    ResolvesLayouts(ds, pous);
    AsTakenHas(ds, pous, i);
    EarlySettled(ds, pous, i);
    IntElementary();
    var x: nat :| LayoutsWithin(ua, Register(ds, pous).reg, x);
    assert ExpandName(ua, k, x) == Some(Erase(Register(ds, pous).reg[k]));
    IntLayout(ua, ua.env[k], ds[i].spec.low, ds[i].spec.high, x - 1, Register(ds, pous).reg[k]);
  }
}

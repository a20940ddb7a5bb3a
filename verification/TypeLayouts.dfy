/** When TYPE resolution succeeds, and what it then says: a type has a layout exactly when its layout
    dependencies, through ARRAY, STRUCT and alias but not through pointers, end in declared names. */
module TypeLayouts {
  import opened Wrappers
  import opened DepGraph
  import opened TypeResolution

  /** What the registry holds before the first round is what the POUs registered. */
  datatype Scope = Scope(env: map<string, TypeDecl>, pous: Registry)

  function Keys(ds: seq<TypeDecl>): set<string> { set d | d in ds :: Key(d) }

  ghost predicate Distinct(ds: seq<TypeDecl>) {
    forall i, j :: 0 <= i < j < |ds| ==> Key(ds[i]) != Key(ds[j])
  }

  function EnvOf(ds: seq<TypeDecl>): map<string, TypeDecl> {
    if ds == [] then map[]
    else EnvOf(ds[..|ds| - 1])[Key(ds[|ds| - 1]) := ds[|ds| - 1]]
  }

  ghost predicate Of(env: map<string, TypeDecl>, ds: seq<TypeDecl>) {
    forall d :: d in ds ==> Key(d) in env && env[Key(d)] == d
  }

  lemma {:induction false} EnvHolds(ds: seq<TypeDecl>)
    ensures EnvOf(ds).Keys == Keys(ds)
    ensures forall k :: k in EnvOf(ds) ==> EnvOf(ds)[k] in ds && Key(EnvOf(ds)[k]) == k
    ensures Distinct(ds) ==> Of(EnvOf(ds), ds)
  {
    if ds != [] {
      var (front, d) := (ds[..|ds| - 1], ds[|ds| - 1]);
      EnvHolds(front);
      assert ds == front + [d];
    }
  }

  lemma {:induction false} SpellingIff(ds: seq<TypeDecl>, k: string)
    ensures Spelling(ds, k).Some? <==> k in Keys(ds)
    ensures Spelling(ds, k).Some? ==> Fold(Spelling(ds, k).value) == k
  {
    if ds != [] {
      SpellingIff(ds[..|ds| - 1], k);
      assert ds == ds[..|ds| - 1] + [ds[|ds| - 1]];
    }
  }

  /** A unit is turned down for a duplicate exactly when two names are the same but for case, and the
      two spellings reported are such a pair. */
  lemma {:induction false} DuplicateIff(ds: seq<TypeDecl>)
    ensures Duplicate(ds).None? <==> Distinct(ds)
    ensures Duplicate(ds).Some? ==>
              Duplicate(ds).value.DuplicateType? && Fold(Duplicate(ds).value.first) == Fold(Duplicate(ds).value.second)
  {
    if ds != [] {
      var (front, d) := (ds[..|ds| - 1], ds[|ds| - 1]);
      DuplicateIff(front);
      SpellingIff(front, Key(d));
      assert ds == front + [d];
      if Spelling(front, Key(d)).Some? {
        var e :| e in front && Key(e) == Key(d);
        var i :| 0 <= i < |front| && front[i] == e;
        assert Key(ds[i]) == Key(ds[|ds| - 1]);
      }
    }
  }

  // ----- layouts -----------------------------------------------------------

  const ADDRESS := Pointer(Unresolved(""))

  /** The type without what lies behind its pointers. */
  function Erase(ty: Ty): Ty {
    match ty
    case Array(rs, e) => Array(rs, Erase(e))
    case Pointer(_) => ADDRESS
    case Subrange(b, lo, hi) => Subrange(Erase(b), lo, hi)
    case Struct(fs) => Struct(seq(|fs|, i requires 0 <= i < |fs| => Member(fs[i].name, Erase(fs[i].ty))))
    case _ => ty
  }

  function Map(t: Option<Ty>, f: Ty -> Ty): Option<Ty> { if t.None? then None else Some(f(t.value)) }

  /** The layout of a type, every name replaced by what it is declared as, at most `depth` names deep. */
  function Expand(u: Scope, spec: Spec, depth: nat): Option<Ty>
    decreases depth, 1, spec, 0
  {
    match spec
    case Named(n) => if Elementary(n).Some? then Elementary(n) else ExpandName(u, Fold(n), depth)
    case TextOf(wide, length) => Some(Text(wide, length))
    case ArrayOf(rs, e) =>
      Map(Expand(u, e, depth), t => Array(seq(|rs|, i requires 0 <= i < |rs| => Bounds(rs[i])), t))
    case PointerTo(_) => Some(ADDRESS)
    case ReferenceTo(t) => Expand(u, t, depth)
    case OpenArray => None
    case SubrangeOf(b, lo, hi) =>
      var base := if Elementary(b).Some? then Elementary(b) else ExpandName(u, Fold(b), depth);
      Map(base, t => Subrange(t, lo, hi))
    case StructOf(fs) =>
      if forall i :: 0 <= i < |fs| ==> Expand(u, fs[i].spec, depth).Some?
      then Some(Struct(seq(|fs|, i requires 0 <= i < |fs| && Expand(u, fs[i].spec, depth).Some? =>
                             Member(fs[i].name, Expand(u, fs[i].spec, depth).value))))
      else None
    case EnumOf(b, vs) => Some(Enumeration("", EnumBase(b), vs))
  }

  function ExpandName(u: Scope, k: string, depth: nat): Option<Ty>
    decreases depth, 0
  {
    if k in u.env then if depth == 0 then None else ExpandDecl(u, u.env[k], depth - 1)
    else if k in u.pous then Some(Erase(u.pous[k]))
    else None
  }

  function ExpandDecl(u: Scope, d: TypeDecl, depth: nat): Option<Ty>
    decreases depth, 1, d.spec, 1
  {
    if d.spec.ReferenceTo? then Some(ADDRESS)
    else Map(Expand(u, d.spec, depth), t => Renamed(t, d.name))
  }

  lemma {:induction false} ExpandMonotone(u: Scope, spec: Spec, a: nat, b: nat)
    requires a <= b && Expand(u, spec, a).Some?
    ensures Expand(u, spec, b) == Expand(u, spec, a)
    decreases a, 1, spec, 0
  {
    hide Elementary;
    match spec
    case Named(n) => if Elementary(n).None? { NameMonotone(u, Fold(n), a, b); }
    case ArrayOf(_, e) => ExpandMonotone(u, e, a, b);
    case ReferenceTo(t) => ExpandMonotone(u, t, a, b);
    case SubrangeOf(n, _, _) => if Elementary(n).None? { NameMonotone(u, Fold(n), a, b); }
    case StructOf(fs) =>
      forall i | 0 <= i < |fs| ensures Expand(u, fs[i].spec, b) == Expand(u, fs[i].spec, a) {
        ExpandMonotone(u, fs[i].spec, a, b);
      }
      assert Expand(u, spec, b).value.fields == Expand(u, spec, a).value.fields;
    case _ =>
  }

  lemma {:induction false} NameMonotone(u: Scope, k: string, a: nat, b: nat)
    requires a <= b && ExpandName(u, k, a).Some?
    ensures ExpandName(u, k, b) == ExpandName(u, k, a)
    decreases a, 0
  {
    if k in u.env { DeclMonotone(u, u.env[k], a - 1, b - 1); }
  }

  lemma {:induction false} DeclMonotone(u: Scope, d: TypeDecl, a: nat, b: nat)
    requires a <= b && ExpandDecl(u, d, a).Some?
    ensures ExpandDecl(u, d, b) == ExpandDecl(u, d, a)
    decreases a, 1, d.spec, 1
  {
    if !d.spec.ReferenceTo? { ExpandMonotone(u, d.spec, a, b); }
  }

  // ----- subranges of names that are not known -----------------------------

  /** The names a declaration finds registered; None stands for all names there are. */
  type Known = Option<set<string>>

  predicate Knows(known: Known, k: string) { known.None? || k in known.value }

  /** The specification as it is taken where only these names are known: a subrange of another name is
      a subrange of INT. */
  function Taken(spec: Spec, known: Known): Spec {
    match spec
    case ArrayOf(rs, e) => ArrayOf(rs, Taken(e, known))
    case ReferenceTo(t) => ReferenceTo(Taken(t, known))
    case SubrangeOf(b, lo, hi) =>
      if Elementary(b).Some? || Knows(known, Fold(b)) then spec else SubrangeOf("INT", lo, hi)
    case StructOf(fs) =>
      StructOf(seq(|fs|, i requires 0 <= i < |fs| => FieldSpec(fs[i].name, Taken(fs[i].spec, known))))
    case _ => spec
  }

  function TakenDecl(d: TypeDecl, known: Known): TypeDecl {
    if d.spec.ReferenceTo? then d else d.(spec := Taken(d.spec, known))
  }

  lemma IntElementary()
    ensures Elementary("INT") == Some(Basic("INT"))
  {
    assert Fold("INT") == "INT";
  }

  // ----- what a round keeps ------------------------------------------------

  predicate Complete(ty: Ty) { FirstUnresolved(ty).None? }

  lemma {:induction false} FieldsComplete(ty: Ty, i: nat)
    requires ty.Struct? && i <= |ty.fields|
    ensures FirstUnresolvedField(ty, i).None? <==> forall j :: i <= j < |ty.fields| ==> Complete(ty.fields[j].ty)
    decreases |ty.fields| - i
  {
    if i < |ty.fields| { FieldsComplete(ty, i + 1); }
  }

  /** A name of a TYPE is not also the name of a POU, and POU types are complete. */
  ghost predicate ProperScope(u: Scope) {
    && u.env.Keys !! u.pous.Keys
    && (forall k :: k in u.pous ==> Complete(u.pous[k]))
    && forall k :: k in u.env ==> Key(u.env[k]) == k
  }

  /** What is registered complete has the declared layout. */
  ghost predicate Sound(u: Scope, reg: Registry, depth: nat) {
    && (forall k :: k in reg && k in u.env && Complete(reg[k]) ==>
          ExpandDecl(u, u.env[k], depth) == Some(Erase(reg[k])))
    && Framed(u, reg)
  }

  ghost predicate Framed(u: Scope, reg: Registry) {
    && u.pous.Keys <= reg.Keys <= u.env.Keys + u.pous.Keys
    && forall k :: k in u.pous && k !in u.env ==> reg[k] == u.pous[k]
  }

  lemma NameExpands(u: Scope, reg: Registry, k: string, depth: nat)
    requires Sound(u, reg, depth) && k in reg && Complete(reg[k])
    ensures ExpandName(u, k, depth + 1) == Some(Erase(reg[k]))
  {
    hide Expand, Erase;
  }

  lemma EraseElementary(n: string)
    ensures Elementary(n).Some? ==> Erase(Elementary(n).value) == Elementary(n).value
  {
  }

  /** A type that comes out complete has the layout of its specification as taken. */
  lemma {:induction false} ResolveExpands(u: Scope, reg: Registry, spec: Spec, depth: nat)
    requires Sound(u, reg, depth) && Complete(Resolve(spec, reg))
    ensures Expand(u, Taken(spec, Some(reg.Keys)), depth + 1) == Some(Erase(Resolve(spec, reg)))
  {
    hide Elementary, ExpandName, Sound;
    match spec
    case Named(n) => EraseElementary(n); if Elementary(n).None? { NameExpands(u, reg, Fold(n), depth); }
    case ArrayOf(_, e) => ResolveExpands(u, reg, e, depth);
    case ReferenceTo(t) => ResolveExpands(u, reg, t, depth);
    case SubrangeOf(n, _, _) =>
      EraseElementary(n);
      IntElementary();
      if Elementary(n).None? && Fold(n) in reg { NameExpands(u, reg, Fold(n), depth); }
    case StructOf(fs) =>
      FieldsComplete(Resolve(spec, reg), 0);
      forall i | 0 <= i < |fs|
        ensures Expand(u, Taken(fs[i].spec, Some(reg.Keys)), depth + 1) == Some(Erase(Resolve(fs[i].spec, reg)))
      {
        assert Complete(Resolve(spec, reg).fields[i].ty);
        ResolveExpands(u, reg, fs[i].spec, depth);
      }
      assert Expand(u, Taken(spec, Some(reg.Keys)), depth + 1).value.fields == Erase(Resolve(spec, reg)).fields;
    case _ =>
  }

  lemma RenameErases(ty: Ty, name: string)
    ensures Erase(Renamed(ty, name)) == Renamed(Erase(ty), name)
    ensures Complete(Renamed(ty, name)) == Complete(ty)
  {
  }

  lemma DeclExpands(u: Scope, reg: Registry, d: TypeDecl, depth: nat)
    requires Sound(u, reg, depth) && Complete(ResolveDecl(d, reg))
    ensures ExpandDecl(u, TakenDecl(d, Some(reg.Keys)), depth + 1) == Some(Erase(ResolveDecl(d, reg)))
  {
    hide Expand, Sound, Resolve;
    if !d.spec.ReferenceTo? {
      TakenReference(d.spec, Some(reg.Keys));
      RenameErases(Resolve(d.spec, reg), d.name);
      ResolveExpands(u, reg, d.spec, depth);
    }
  }

  lemma TakenReference(spec: Spec, known: Known)
    ensures Taken(spec, known).ReferenceTo? <==> spec.ReferenceTo?
  {
  }

  /** The unit has the declaration as taken where these names are known. */
  ghost predicate Sees(u: Scope, d: TypeDecl, known: set<string>) {
    Key(d) in u.env && u.env[Key(d)] == TakenDecl(d, Some(known))
  }

  /** What a declaration resolves to completely is what the unit takes it for. */
  ghost predicate Fits(u: Scope, reg: Registry, d: TypeDecl) {
    Key(d) in u.env && (Complete(ResolveDecl(d, reg)) ==> Sees(u, d, reg.Keys))
  }

  lemma RegisterSound(u: Scope, reg: Registry, d: TypeDecl, depth: nat)
    requires Sound(u, reg, depth) && Fits(u, reg, d) && Key(d) !in u.pous
    ensures Sound(u, reg[Key(d) := ResolveDecl(d, reg)], depth + 1)
  {
    hide ExpandDecl, Erase, ResolveDecl, TakenDecl, FirstUnresolved;
    var r := reg[Key(d) := ResolveDecl(d, reg)];
    forall k | k in r && k in u.env && Complete(r[k])
      ensures ExpandDecl(u, u.env[k], depth + 1) == Some(Erase(r[k]))
    {
      if k == Key(d) {
        DeclExpands(u, reg, d, depth);
      } else {
        DeclMonotone(u, u.env[k], depth, depth + 1);
      }
    }
  }

  /** So it is for every declaration of a round when its turn comes. */
  ghost predicate AllFit(u: Scope, todo: seq<TypeDecl>, reg: Registry) {
    forall i :: 0 <= i < |todo| ==> Fits(u, Pass(todo[..i], reg).0, todo[i])
  }

  lemma AllFitFront(u: Scope, todo: seq<TypeDecl>, reg: Registry)
    requires todo != [] && AllFit(u, todo, reg)
    ensures var (front, d) := (todo[..|todo| - 1], todo[|todo| - 1]);
            && AllFit(u, front, reg) && Fits(u, Pass(front, reg).0, d)
            && Keys(todo) == Keys(front) + {Key(d)} && Key(d) in u.env
  {
    hide Pass;
    var (front, d) := (todo[..|todo| - 1], todo[|todo| - 1]);
    assert todo == front + [d];
    forall i | 0 <= i < |front| ensures Fits(u, Pass(front[..i], reg).0, front[i]) {
      assert front[..i] == todo[..i];
    }
  }

  lemma {:induction false} PassSound(u: Scope, todo: seq<TypeDecl>, reg: Registry, depth: nat)
    requires ProperScope(u) && Sound(u, reg, depth) && AllFit(u, todo, reg)
    ensures Sound(u, Pass(todo, reg).0, depth + |todo|)
  {
    hide Fits, Sound, ResolveDecl, AllFit;
    if todo != [] {
      var (front, d) := (todo[..|todo| - 1], todo[|todo| - 1]);
      AllFitFront(u, todo, reg);
      PassSound(u, front, reg, depth);
      RegisterSound(u, Pass(front, reg).0, d, depth + |front|);
    }
  }

  // ----- why a declaration stays incomplete --------------------------------

  /** The layout of the specification depends on the layout of k. */
  ghost predicate Needs(spec: Spec, k: string) {
    match spec
    case Named(n) => Elementary(n).None? && Fold(n) == k
    case ArrayOf(_, e) => Needs(e, k)
    case ReferenceTo(t) => Needs(t, k)
    case SubrangeOf(b, _, _) => Elementary(b).None? && Fold(b) == k
    case StructOf(fs) => exists i :: 0 <= i < |fs| && Needs(fs[i].spec, k)
    case _ => false
  }

  /** Somewhere in the layout is an ARRAY[*]. */
  ghost predicate Open(spec: Spec) {
    match spec
    case ArrayOf(_, e) => Open(e)
    case ReferenceTo(t) => Open(t)
    case OpenArray => true
    case StructOf(fs) => exists i :: 0 <= i < |fs| && Open(fs[i].spec)
    case _ => false
  }

  ghost predicate OwnNeeds(d: TypeDecl, k: string) {
    !d.spec.ReferenceTo? && Needs(d.spec, k)
  }

  ghost predicate OwnOpen(d: TypeDecl) { !d.spec.ReferenceTo? && Open(d.spec) }

  /** Neither a TYPE nor a POU, or a TYPE with an ARRAY[*] in it. */
  ghost predicate Missing(u: Scope, k: string) {
    if k in u.env then OwnOpen(u.env[k]) else k !in u.pous
  }

  ghost predicate Link(u: Scope, a: string, b: string) { a in u.env && OwnNeeds(u.env[a], b) }

  ghost predicate Path(u: Scope, p: seq<string>) {
    p != [] && forall j :: 0 <= j < |p| - 1 ==> Link(u, p[j], p[j + 1])
  }

  /** Layout dependencies leading from p[0] to a name that has no layout, or round in a circle. */
  ghost predicate Blocked(u: Scope, p: seq<string>) { Path(u, p) && (Missing(u, Last(p)) || Repeats(p)) }

  /** All declared types but those still pending are registered complete. */
  ghost predicate Closed(u: Scope, reg: Registry, pending: set<string>) {
    && (forall k :: k in u.env && k !in pending ==> k in reg && Complete(reg[k]))
    && Framed(u, reg)
  }

  ghost predicate Waits(u: Scope, pending: set<string>, k: string) {
    k in pending || (k !in u.env && k !in u.pous)
  }

  lemma NameWaits(u: Scope, reg: Registry, pending: set<string>, k: string)
    requires ProperScope(u) && Closed(u, reg, pending) && (k in reg ==> !Complete(reg[k]))
    ensures Waits(u, pending, k)
  {
  }

  lemma ElementaryComplete(n: string)
    ensures Elementary(n).Some? ==> Complete(Elementary(n).value)
  {
  }

  /** Every name the layout needs is registered complete. */
  ghost predicate Served(reg: Registry, spec: Spec) {
    forall k :: Needs(spec, k) ==> k in reg && Complete(reg[k])
  }

  /** A specification comes out complete exactly when it has no open array and all it needs, as it is
      taken where the registered names are known, is registered complete. */
  lemma {:induction false} CompleteIff(reg: Registry, spec: Spec)
    ensures Complete(Resolve(spec, reg)) <==> !Open(spec) && Served(reg, Taken(spec, Some(reg.Keys)))
  {
    hide Elementary;
    match spec
    case Named(n) => ElementaryComplete(n); assert Needs(spec, Fold(n)) <==> Elementary(n).None?;
    case ArrayOf(_, e) => CompleteIff(reg, e);
    case ReferenceTo(t) => CompleteIff(reg, t);
    case SubrangeOf(n, _, _) => SubrangeCompleteIff(reg, spec);
    case StructOf(fs) =>
      FieldsComplete(Resolve(spec, reg), 0);
      forall i | 0 <= i < |fs|
        ensures Complete(Resolve(spec, reg).fields[i].ty)
                <==> !Open(fs[i].spec) && Served(reg, Taken(fs[i].spec, Some(reg.Keys)))
      {
        CompleteIff(reg, fs[i].spec);
      }
      FieldsServed(reg, spec);
    case _ =>
  }

  lemma SubrangeCompleteIff(reg: Registry, spec: Spec)
    requires spec.SubrangeOf?
    ensures Complete(Resolve(spec, reg)) <==> Served(reg, Taken(spec, Some(reg.Keys)))
  {
    hide Elementary;
    ElementaryComplete(spec.base);
    IntElementary();
    assert Complete(Basic("INT"));
    assert Needs(spec, Fold(spec.base)) <==> Elementary(spec.base).None?;
  }

  lemma FieldsServed(reg: Registry, spec: Spec)
    requires spec.StructOf?
    ensures Served(reg, Taken(spec, Some(reg.Keys)))
            <==> forall i :: 0 <= i < |spec.fields| ==> Served(reg, Taken(spec.fields[i].spec, Some(reg.Keys)))
  {
    var taken := Taken(spec, Some(reg.Keys));
    TakenFields(spec, Some(reg.Keys));
    hide Taken, Complete, FirstUnresolved;
    if Served(reg, taken) {
      forall i, k | 0 <= i < |spec.fields| && Needs(taken.fields[i].spec, k) ensures k in reg && Complete(reg[k]) {
        assert Needs(taken, k);
      }
    }
  }

  lemma TakenFields(spec: Spec, known: Known)
    requires spec.StructOf?
    ensures var taken := Taken(spec, known);
            && taken.StructOf? && |taken.fields| == |spec.fields|
            && forall i :: 0 <= i < |spec.fields| ==> taken.fields[i].spec == Taken(spec.fields[i].spec, known)
  {
  }

  /** A specification that comes out incomplete has an open array or needs a name that waits. */
  lemma UnresolvedNeeds(u: Scope, reg: Registry, spec: Spec, pending: set<string>)
    requires ProperScope(u) && Closed(u, reg, pending) && !Complete(Resolve(spec, reg))
    ensures Open(spec) || exists k :: Needs(Taken(spec, Some(reg.Keys)), k) && Waits(u, pending, k)
  {
    hide Resolve, Taken, Needs, Open, Waits, Closed, FirstUnresolved;
    CompleteIff(reg, spec);
    if !Open(spec) {
      var k :| Needs(Taken(spec, Some(reg.Keys)), k) && !(k in reg && Complete(reg[k]));
      NameWaits(u, reg, pending, k);
    }
  }

  /** The more names are known, the more is needed. */
  lemma {:induction false} TakenNeeds(spec: Spec, a: set<string>, b: set<string>, k: string)
    requires a <= b
    ensures Needs(Taken(spec, Some(a)), k) ==> Needs(Taken(spec, Some(b)), k)
    ensures Open(Taken(spec, Some(a))) <==> Open(spec)
    decreases spec, 1
  {
    hide Elementary;
    match spec
    case ArrayOf(_, e) => TakenNeeds(e, a, b, k);
    case ReferenceTo(t) => TakenNeeds(t, a, b, k);
    case SubrangeOf(_, _, _) => IntElementary();
    case StructOf(fs) => FieldsNeed(spec, a, b, k);
    case _ =>
  }

  lemma {:induction false} FieldsNeed(spec: Spec, a: set<string>, b: set<string>, k: string)
    requires a <= b && spec.StructOf?
    ensures Needs(Taken(spec, Some(a)), k) ==> Needs(Taken(spec, Some(b)), k)
    ensures Open(Taken(spec, Some(a))) <==> Open(spec)
    decreases spec, 0
  {
    var (ta, tb) := (Taken(spec, Some(a)), Taken(spec, Some(b)));
    forall i | 0 <= i < |spec.fields|
      ensures Needs(ta.fields[i].spec, k) ==> Needs(tb.fields[i].spec, k)
      ensures Open(ta.fields[i].spec) <==> Open(spec.fields[i].spec)
    {
      TakenNeeds(spec.fields[i].spec, a, b, k);
    }
  }

  // ----- rounds ------------------------------------------------------------

  function AllNames(u: Scope): set<string> { u.env.Keys + u.pous.Keys }

  /** The declaration of k cannot be completed while these are pending. */
  ghost predicate Stuck(u: Scope, pending: set<string>, k: string) {
    k in u.env && (OwnOpen(u.env[k]) || exists m :: OwnNeeds(u.env[k], m) && Waits(u, pending, m))
  }

  lemma IncompleteStuck(u: Scope, reg: Registry, d: TypeDecl, pending: set<string>)
    requires ProperScope(u) && Closed(u, reg, pending) && !Complete(ResolveDecl(d, reg)) && Sees(u, d, AllNames(u))
    ensures Stuck(u, pending, Key(d))
  {
    hide Resolve, Waits, Open, Needs, Taken;
    if !d.spec.ReferenceTo? {
      RenameErases(Resolve(d.spec, reg), d.name);
      UnresolvedNeeds(u, reg, d.spec, pending);
      TakenReference(d.spec, Some(AllNames(u)));
      TakenNeeds(d.spec, reg.Keys, AllNames(u), "");
      TakenNeeds(d.spec, AllNames(u), AllNames(u), "");
      if !Open(d.spec) {
        var k :| Needs(Taken(d.spec, Some(reg.Keys)), k) && Waits(u, pending, k);
        TakenNeeds(d.spec, reg.Keys, AllNames(u), k);
        assert OwnNeeds(u.env[Key(d)], k);
      }
    }
  }

  lemma RegisterClosed(u: Scope, reg: Registry, d: TypeDecl, pending: set<string>)
    requires ProperScope(u) && Closed(u, reg, pending) && Key(d) in u.env
    ensures var r := reg[Key(d) := ResolveDecl(d, reg)];
            Closed(u, r, if Complete(ResolveDecl(d, reg)) then pending - {Key(d)} else pending + {Key(d)})
  {
    hide ResolveDecl, FirstUnresolved;
  }

  lemma DeclsAppend(still: seq<(TypeDecl, string)>, d: TypeDecl, n: string)
    ensures Decls(still + [(d, n)]) == Decls(still) + [d]
    ensures Keys(Decls(still + [(d, n)])) == Keys(Decls(still)) + {Key(d)}
  {
    assert Decls(still + [(d, n)]) == Decls(still) + [d];
  }

  lemma KeysAppend(front: seq<TypeDecl>, d: TypeDecl)
    ensures Keys(front + [d]) == Keys(front) + {Key(d)}
  {
  }

  lemma EmptyKeys()
    ensures Keys([]) == Keys(Decls([])) == {}
  {
  }

  /** A round registers what it is given and keeps some of it. */
  lemma {:induction false} PassTouches(todo: seq<TypeDecl>, reg: Registry)
    ensures Pass(todo, reg).0.Keys == reg.Keys + Keys(todo)
    ensures Keys(Decls(Pass(todo, reg).1)) <= Keys(todo)
    ensures forall k :: k in reg && k !in Keys(todo) ==> Pass(todo, reg).0[k] == reg[k]
  {
    hide ResolveDecl, FirstUnresolved, Decls, Keys;
    if todo == [] {
      EmptyKeys();
    } else {
      var (front, d) := (todo[..|todo| - 1], todo[|todo| - 1]);
      assert todo == front + [d];
      KeysAppend(front, d);
      PassTouches(front, reg);
      var (r, still) := Pass(front, reg);
      DeclsAppend(still, d, if Complete(ResolveDecl(d, r)) then "" else FirstUnresolved(ResolveDecl(d, r)).value);
    }
  }

  /** It keeps what came out incomplete when its turn came. */
  lemma {:induction false} PassKept(todo: seq<TypeDecl>, reg: Registry, d: TypeDecl)
    requires d in Decls(Pass(todo, reg).1)
    ensures exists i :: 0 <= i < |todo| && todo[i] == d && !Complete(ResolveDecl(d, Pass(todo[..i], reg).0))
  {
    hide ResolveDecl, FirstUnresolved;
    var (front, e) := (todo[..|todo| - 1], todo[|todo| - 1]);
    var (r, still) := Pass(front, reg);
    DeclsAppend(still, e, if Complete(ResolveDecl(e, r)) then "" else FirstUnresolved(ResolveDecl(e, r)).value);
    if d in Decls(still) {
      PassKept(front, reg, d);
      var i :| 0 <= i < |front| && front[i] == d && !Complete(ResolveDecl(d, Pass(front[..i], reg).0));
      assert front[..i] == todo[..i] && todo[i] == d;
    } else {
      assert e == d && todo[..|todo| - 1] == front;
    }
  }

  lemma {:induction false} PassKeepsAll(todo: seq<TypeDecl>, reg: Registry)
    requires |Pass(todo, reg).1| == |todo|
    ensures Decls(Pass(todo, reg).1) == todo
  {
    hide ResolveDecl, FirstUnresolved;
    if todo != [] {
      var (front, d) := (todo[..|todo| - 1], todo[|todo| - 1]);
      PassKeeps(front, reg);
      PassKeepsAll(front, reg);
      var (r, still) := Pass(front, reg);
      DeclsAppend(still, d, if Complete(ResolveDecl(d, r)) then "" else FirstUnresolved(ResolveDecl(d, r)).value);
    }
  }

  /** A round completes all that it does not keep. */
  lemma PassClosed(u: Scope, todo: seq<TypeDecl>, reg: Registry)
    requires ProperScope(u) && Closed(u, reg, Keys(todo)) && Keys(todo) <= u.env.Keys
    ensures Closed(u, Pass(todo, reg).0, Keys(Decls(Pass(todo, reg).1)))
  {
    PassClosedFrom(u, todo, reg, Keys(todo));
    assert Keys(todo) - Keys(todo) + Keys(Decls(Pass(todo, reg).1)) == Keys(Decls(Pass(todo, reg).1));
  }

  lemma {:induction false} PassClosedFrom(u: Scope, todo: seq<TypeDecl>, reg: Registry, all: set<string>)
    requires ProperScope(u) && Closed(u, reg, all) && Keys(todo) <= u.env.Keys
    ensures Closed(u, Pass(todo, reg).0, all - Keys(todo) + Keys(Decls(Pass(todo, reg).1)))
  {
    hide ResolveDecl, FirstUnresolved, ProperScope, Keys, Decls, Closed;
    if todo == [] {
      EmptyKeys();
      assert all - Keys(todo) + Keys(Decls([])) == all;
    } else {
      var (front, d) := (todo[..|todo| - 1], todo[|todo| - 1]);
      assert todo == front + [d];
      KeysAppend(front, d);
      PassClosedFrom(u, front, reg, all);
      var (r, still) := Pass(front, reg);
      RegisterClosed(u, r, d, all - Keys(front) + Keys(Decls(still)));
      var x := FirstUnresolved(ResolveDecl(d, r));
      if x.Some? { DeclsAppend(still, d, x.value); }
      ClosedWider(u, Pass(todo, reg).0, if x.None? then all - Keys(front) + Keys(Decls(still)) - {Key(d)}
                                        else all - Keys(front) + Keys(Decls(still)) + {Key(d)},
                  all - Keys(todo) + Keys(Decls(Pass(todo, reg).1)));
    }
  }

  lemma ClosedWider(u: Scope, reg: Registry, a: set<string>, b: set<string>)
    requires Closed(u, reg, a) && a <= b
    ensures Closed(u, reg, b)
  {
  }

  ghost predicate SeesAll(u: Scope, ds: seq<TypeDecl>) { forall d :: d in ds ==> Sees(u, d, AllNames(u)) }

  /** In a round that completes nothing every declaration was stuck. */
  lemma {:induction false} PassStuck(u: Scope, todo: seq<TypeDecl>, reg: Registry, pending: set<string>)
    requires ProperScope(u) && Closed(u, reg, pending) && SeesAll(u, todo)
    requires Keys(todo) <= pending <= u.env.Keys && |Pass(todo, reg).1| == |todo|
    ensures Closed(u, Pass(todo, reg).0, pending)
    ensures forall i :: 0 <= i < |todo| ==> Stuck(u, pending, Key(todo[i]))
  {
    hide ResolveDecl, FirstUnresolved, ProperScope, Keys, Closed, Stuck, Sees;
    if todo != [] {
      var (front, d) := (todo[..|todo| - 1], todo[|todo| - 1]);
      assert todo == front + [d];
      KeysAppend(front, d);
      PassKeeps(front, reg);
      PassStuck(u, front, reg, pending);
      var r := Pass(front, reg).0;
      IncompleteStuck(u, r, d, pending);
      RegisterClosed(u, r, d, pending);
      assert pending + {Key(d)} == pending;
    }
  }

  /** Where every pending declaration is stuck, following what they need ends nowhere. */
  lemma FollowStuck(u: Scope, pending: set<string>, k: string) returns (p: seq<string>)
    requires k in pending && pending <= u.env.Keys
    requires forall m :: m in pending ==> Stuck(u, pending, m)
    ensures Blocked(u, p) && p[0] == k
  {
    hide OwnOpen, OwnNeeds;
    p := [k];
    assert Elements(p[..0]) == {};
    while !(Missing(u, Last(p)) || Repeats(p))
      invariant Path(u, p) && p[0] == k && Waits(u, pending, Last(p))
      invariant Elements(p[..|p| - 1]) <= u.env.Keys
      decreases u.env.Keys - Elements(p[..|p| - 1])
    {
      assert Stuck(u, pending, Last(p));
      var m :| OwnNeeds(u.env[Last(p)], m) && Waits(u, pending, m);
      assert Link(u, Last(p), m);
      WalkOn(p, m, u.env.Keys);
      p := p + [m];
    }
  }

  /** What is kept in a round is what the unit takes with all names known. */
  ghost predicate KeepsSeen(u: Scope, todo: seq<TypeDecl>, reg: Registry) { SeesAll(u, Decls(Pass(todo, reg).1)) }

  lemma NextKeepsSeen(u: Scope, todo: seq<TypeDecl>, reg: Registry)
    requires SeesAll(u, todo)
    ensures KeepsSeen(u, todo, reg)
  {
    hide Pass, Sees;
    forall d | d in Decls(Pass(todo, reg).1) ensures d in todo { PassKept(todo, reg, d); }
  }

  /** Rounds that fail do so over a declaration that has no layout. */
  lemma {:induction false} RoundsBlocked(u: Scope, todo: seq<TypeDecl>, reg: Registry) returns (p: seq<string>)
    requires ProperScope(u) && Closed(u, reg, Keys(todo)) && Keys(todo) <= u.env.Keys && KeepsSeen(u, todo, reg)
    requires Rounds(todo, reg).Rejected?
    ensures Rounds(todo, reg).failure.CyclicType?
    ensures Blocked(u, p) && p[0] == Fold(Rounds(todo, reg).failure.typeName) && p[0] in u.env
    decreases |todo|
  {
    hide Pass, Closed, Stuck, ProperScope, Blocked, SeesAll;
    var (r, still) := Pass(todo, reg);
    PassKeeps(todo, reg);
    if |still| == |todo| {
      PassKeepsAll(todo, reg);
      PassStuck(u, todo, reg, Keys(todo));
      assert Decls(still)[0] == todo[0];
      forall m | m in Keys(todo) ensures Stuck(u, Keys(todo), m) {
        var i :| 0 <= i < |todo| && Key(todo[i]) == m;
      }
      p := FollowStuck(u, Keys(todo), Key(todo[0]));
    } else {
      PassClosed(u, todo, reg);
      PassTouches(todo, reg);
      NextKeepsSeen(u, Decls(still), r);
      p := RoundsBlocked(u, Decls(still), r);
    }
  }

  /** From the second round on every declared name is known. */
  lemma NextFits(u: Scope, todo: seq<TypeDecl>, reg: Registry)
    requires SeesAll(u, todo) && Keys(todo) <= u.env.Keys && reg.Keys == AllNames(u)
    ensures AllFit(u, todo, reg)
  {
    hide Pass, ResolveDecl;
    forall i | 0 <= i < |todo| ensures Fits(u, Pass(todo[..i], reg).0, todo[i]) {
      PassTouches(todo[..i], reg);
      assert Keys(todo[..i]) <= Keys(todo);
      assert Pass(todo[..i], reg).0.Keys == AllNames(u);
      assert Sees(u, todo[i], AllNames(u));
    }
  }

  lemma AllKnown(u: Scope, reg: Registry, todo: seq<TypeDecl>)
    requires Closed(u, reg, Keys(todo)) && Keys(todo) <= u.env.Keys
    ensures Pass(todo, reg).0.Keys == AllNames(u)
  {
    PassTouches(todo, reg);
  }

  lemma {:induction false} RoundsSound(u: Scope, todo: seq<TypeDecl>, reg: Registry, depth: nat) returns (d: nat)
    requires ProperScope(u) && Closed(u, reg, Keys(todo)) && Keys(todo) <= u.env.Keys && KeepsSeen(u, todo, reg)
    requires Sound(u, reg, depth) && AllFit(u, todo, reg)
    requires Rounds(todo, reg).Resolved?
    ensures Sound(u, Rounds(todo, reg).reg, d) && Closed(u, Rounds(todo, reg).reg, {})
    decreases |todo|
  {
    hide Pass, Closed, ProperScope, Sound, AllFit, SeesAll;
    if todo == [] {
      EmptyKeys();
      d := depth;
    } else {
      var (r, still) := Pass(todo, reg);
      PassKeeps(todo, reg);
      PassSound(u, todo, reg, depth);
      PassClosed(u, todo, reg);
      PassTouches(todo, reg);
      if still == [] {
        EmptyKeys();
        d := depth + |todo|;
      } else {
        AllKnown(u, reg, todo);
        NextFits(u, Decls(still), r);
        NextKeepsSeen(u, Decls(still), r);
        d := RoundsSound(u, Decls(still), r, depth + |todo|);
      }
    }
  }

  // ----- layouts and blocked paths -----------------------------------------

  /** What a layout depends on has a layout. */
  lemma {:induction false} NeedsExpand(u: Scope, spec: Spec, k: string, depth: nat)
    requires Expand(u, spec, depth).Some?
    ensures !Open(spec)
    ensures Needs(spec, k) ==> ExpandName(u, k, depth).Some?
    decreases spec
  {
    hide Elementary, ExpandName;
    match spec
    case ArrayOf(_, e) => NeedsExpand(u, e, k, depth);
    case ReferenceTo(t) => NeedsExpand(u, t, k, depth);
    case StructOf(fs) =>
      forall i | 0 <= i < |fs|
        ensures !Open(fs[i].spec) && (Needs(fs[i].spec, k) ==> ExpandName(u, k, depth).Some?)
      {
        NeedsExpand(u, fs[i].spec, k, depth);
      }
    case _ =>
  }

  /** Along a path of dependencies the layouts get shallower. */
  lemma {:induction false} PathExpands(u: Scope, p: seq<string>, i: nat, depth: nat)
    requires Path(u, p) && i < |p| && ExpandName(u, p[0], depth).Some?
    ensures i <= depth && ExpandName(u, p[i], depth - i).Some?
  {
    hide Expand, Needs, Open;
    if i > 0 {
      PathExpands(u, p, i - 1, depth);
      assert Link(u, p[i - 1], p[i]);
      NeedsExpand(u, u.env[p[i - 1]].spec, p[i], depth - i);
    }
  }

  /** Walking round a circle again and again would take every depth there is. */
  lemma {:induction false} NoCircle(u: Scope, p: seq<string>, depth: nat)
    requires Path(u, p) && |p| > 1 && p[0] == Last(p)
    ensures ExpandName(u, p[0], depth).None?
    decreases depth
  {
    hide ExpandName, Path;
    if ExpandName(u, p[0], depth).Some? {
      PathExpands(u, p, |p| - 1, depth);
      NoCircle(u, p, depth - (|p| - 1));
    }
  }

  lemma BlockedHasNoLayout(u: Scope, p: seq<string>, depth: nat)
    requires ProperScope(u) && Blocked(u, p)
    ensures ExpandName(u, p[0], depth).None?
  {
    hide Expand, Needs, Open;
    if ExpandName(u, p[0], depth).Some? {
      if Repeats(p) {
        var i :| 0 <= i < |p| - 1 && p[i] == Last(p);
        PathExpands(u, p, i, depth);
        NoCircle(u, p[i..], depth - i);
      } else {
        PathExpands(u, p, |p| - 1, depth);
        MissingHasNoLayout(u, Last(p), depth - (|p| - 1));
      }
      assert false;
    }
  }

  lemma MissingHasNoLayout(u: Scope, k: string, depth: nat)
    requires Missing(u, k)
    ensures ExpandName(u, k, depth).None?
  {
    hide Expand, Open;
    if k in u.env && depth > 0 && Expand(u, u.env[k].spec, depth - 1).Some? {
      NeedsExpand(u, u.env[k].spec, k, depth - 1);
    }
  }

  // ----- the unit as the rounds take it ------------------------------------

  /** What is registered before the first round comes to declaration i. */
  function Before(ds: seq<TypeDecl>, pous: Registry, i: nat): set<string>
    requires i <= |ds|
  {
    pous.Keys + Keys(ds[..i])
  }

  /** The first round completes declaration i: all it needs, apart from subrange bases that are not
      registered yet, belongs to POUs or to declarations before it that are completed so. */
  ghost predicate Settled(ds: seq<TypeDecl>, pous: Registry, i: nat)
    requires i < |ds|
    decreases i
  {
    ds[i].spec.ReferenceTo?
    || (!Open(ds[i].spec)
        && forall k :: Needs(Taken(ds[i].spec, Some(Before(ds, pous, i))), k) ==>
             k in pous || exists j: nat :: j < i && Key(ds[j]) == k && Settled(ds, pous, j))
  }

  /** The names declaration i knows: in the first round those before it, later all there are. */
  ghost function Seen(ds: seq<TypeDecl>, pous: Registry, i: nat): set<string>
    requires i < |ds|
  {
    if Settled(ds, pous, i) then Before(ds, pous, i) else Before(ds, pous, |ds|)
  }

  ghost function SeenIn(ds: seq<TypeDecl>, pous: Registry, n: nat): map<string, set<string>>
    requires n <= |ds|
  {
    if n == 0 then map[] else SeenIn(ds, pous, n - 1)[Key(ds[n - 1]) := Seen(ds, pous, n - 1)]
  }

  function KnownTo(known: map<string, set<string>>, k: string): Known {
    if k in known then Some(known[k]) else None
  }

  /** Every declaration as it is taken with the names it knows. */
  function View(env: map<string, TypeDecl>, known: map<string, set<string>>): map<string, TypeDecl> {
    map k | k in env :: TakenDecl(env[k], KnownTo(known, k))
  }

  ghost function AsTaken(ds: seq<TypeDecl>, pous: Registry): Scope {
    Scope(View(EnvOf(ds), SeenIn(ds, pous, |ds|)), pous)
  }

  ghost predicate Proper(ds: seq<TypeDecl>, pous: Registry) {
    Distinct(ds) && ProperScope(Scope(EnvOf(ds), pous))
  }

  lemma {:induction false} SeenInHas(ds: seq<TypeDecl>, pous: Registry, n: nat, i: nat)
    requires Distinct(ds) && i < n <= |ds|
    ensures Key(ds[i]) in SeenIn(ds, pous, n) && SeenIn(ds, pous, n)[Key(ds[i])] == Seen(ds, pous, i)
    decreases n
  {
    hide Seen;
    if i < n - 1 { SeenInHas(ds, pous, n - 1, i); }
  }

  lemma AsTakenHas(ds: seq<TypeDecl>, pous: Registry, i: nat)
    requires Distinct(ds) && i < |ds|
    ensures Sees(AsTaken(ds, pous), ds[i], Seen(ds, pous, i))
  {
    hide Seen, SeenIn, TakenDecl;
    EnvHolds(ds);
    SeenInHas(ds, pous, |ds|, i);
    assert ds[i] in ds;
  }

  lemma AsTakenProper(ds: seq<TypeDecl>, pous: Registry)
    requires Proper(ds, pous)
    ensures ProperScope(AsTaken(ds, pous)) && AsTaken(ds, pous).env.Keys == Keys(ds)
  {
    hide Seen, SeenIn, Taken;
    EnvHolds(ds);
  }

  lemma {:induction false} PassAt(ds: seq<TypeDecl>, pous: Registry, j: nat, n: nat)
    requires Distinct(ds) && j < n <= |ds|
    ensures var r := Pass(ds[..n], pous).0;
            Key(ds[j]) in r && r[Key(ds[j])] == ResolveDecl(ds[j], Pass(ds[..j], pous).0)
    decreases n
  {
    hide ResolveDecl, FirstUnresolved;
    assert ds[..n][..n - 1] == ds[..n - 1];
    if j < n - 1 { PassAt(ds, pous, j, n - 1); }
  }

  lemma PousComplete(ds: seq<TypeDecl>, pous: Registry, i: nat, k: string)
    requires Proper(ds, pous) && i <= |ds| && k in pous
    ensures var r := Pass(ds[..i], pous).0; k in r && Complete(r[k])
  {
    hide Pass;
    EnvHolds(ds);
    PassTouches(ds[..i], pous);
    assert k !in Keys(ds[..i]);
  }

  /** A declaration is settled exactly when it comes out complete in the first round. */
  lemma {:induction false} SettledIff(ds: seq<TypeDecl>, pous: Registry, i: nat)
    requires Proper(ds, pous) && i < |ds|
    ensures Settled(ds, pous, i) <==> Complete(ResolveDecl(ds[i], Pass(ds[..i], pous).0))
    decreases i
  {
    var r := Pass(ds[..i], pous).0;
    PassTouches(ds[..i], pous);
    if !ds[i].spec.ReferenceTo? {
      hide Resolve, Taken, Needs, Open, Pass, FirstUnresolved, Proper;
      RenameErases(Resolve(ds[i].spec, r), ds[i].name);
      CompleteIff(r, ds[i].spec);
      forall k | Needs(Taken(ds[i].spec, Some(Before(ds, pous, i))), k)
        ensures k in r && Complete(r[k])
                <==> k in pous || exists j: nat :: j < i && Key(ds[j]) == k && Settled(ds, pous, j)
      {
        RegisteredIff(ds, pous, i, k);
      }
    }
  }

  lemma {:induction false} RegisteredIff(ds: seq<TypeDecl>, pous: Registry, i: nat, k: string)
    requires Proper(ds, pous) && i < |ds|
    ensures var r := Pass(ds[..i], pous).0;
            k in r && Complete(r[k])
            <==> k in pous || exists j: nat :: j < i && Key(ds[j]) == k && Settled(ds, pous, j)
    decreases i, 0
  {
    hide Settled, Pass, ResolveDecl, FirstUnresolved, Proper;
    ProperDistinct(ds, pous);
    PassTouches(ds[..i], pous);
    if k in pous {
      PousComplete(ds, pous, i, k);
    } else {
      forall j: nat | j < i && Key(ds[j]) == k
        ensures var r := Pass(ds[..i], pous).0; k in r && (Complete(r[k]) <==> Settled(ds, pous, j))
      {
        PassAt(ds, pous, j, i);
        SettledIff(ds, pous, j);
      }
      if k in Keys(ds[..i]) { var j :| 0 <= j < i && Key(ds[..i][j]) == k; assert Key(ds[j]) == k; }
    }
  }

  lemma ProperDistinct(ds: seq<TypeDecl>, pous: Registry)
    requires Proper(ds, pous)
    ensures Distinct(ds)
  {
  }

  lemma StartsFit(ds: seq<TypeDecl>, pous: Registry)
    requires Proper(ds, pous)
    ensures AllFit(AsTaken(ds, pous), ds, pous) && KeepsSeen(AsTaken(ds, pous), ds, pous)
  {
    hide Pass, ResolveDecl, FirstUnresolved, TakenDecl, Settled, AsTaken, Proper;
    ProperDistinct(ds, pous);
    AsTakenProper(ds, pous);
    var u := AsTaken(ds, pous);
    forall i | 0 <= i < |ds| ensures Fits(u, Pass(ds[..i], pous).0, ds[i]) {
      AsTakenHas(ds, pous, i);
      SettledIff(ds, pous, i);
      PassTouches(ds[..i], pous);
    }
    forall d | d in Decls(Pass(ds, pous).1) ensures Sees(u, d, AllNames(u)) {
      PassKept(ds, pous, d);
      var i :| 0 <= i < |ds| && ds[i] == d && !Complete(ResolveDecl(d, Pass(ds[..i], pous).0));
      AsTakenHas(ds, pous, i);
      SettledIff(ds, pous, i);
      AsTakenNames(ds, pous);
    }
  }

  lemma AsTakenNames(ds: seq<TypeDecl>, pous: Registry)
    requires Proper(ds, pous)
    ensures AllNames(AsTaken(ds, pous)) == Before(ds, pous, |ds|)
  {
    AsTakenProper(ds, pous);
    assert ds[..|ds|] == ds;
  }

  lemma StartsClosed(ds: seq<TypeDecl>, pous: Registry)
    requires Proper(ds, pous)
    ensures var u := AsTaken(ds, pous);
            ProperScope(u) && Closed(u, pous, Keys(ds)) && Sound(u, pous, 0) && u.env.Keys == Keys(ds)
  {
    hide Settled, SeenIn, TakenDecl;
    AsTakenProper(ds, pous);
  }

  // ----- main results ------------------------------------------------------

  /** The table gives every declared type its layout, none of them deeper than `depth`. */
  ghost predicate LayoutsWithin(u: Scope, reg: Registry, depth: nat) {
    forall k :: k in u.env ==> k in reg && ExpandName(u, k, depth) == Some(Erase(reg[k]))
  }

  ghost predicate HasLayouts(u: Scope, reg: Registry) { exists depth: nat :: LayoutsWithin(u, reg, depth) }

  /** Main result: for a unit without duplicates, when the rounds fail the type they name leads to a
      name without a layout or round in a circle; when they succeed every type has its layout. */
  lemma ResolvesLayouts(ds: seq<TypeDecl>, pous: Registry)
    requires Proper(ds, pous)
    ensures var (u, o) := (AsTaken(ds, pous), Register(ds, pous));
            if o.Resolved? then HasLayouts(u, o.reg)
            else o.failure.CyclicType? && exists p :: Blocked(u, p) && p[0] == Fold(o.failure.typeName)
  {
    hide Blocked, ExpandName, Erase, Closed, Sound, Rounds, AsTaken, AllFit, KeepsSeen;
    var u := AsTaken(ds, pous);
    DuplicateIff(ds);
    StartsClosed(ds, pous);
    StartsFit(ds, pous);
    if Register(ds, pous).Resolved? {
      var depth := RoundsSound(u, ds, pous, 0);
      forall k | k in u.env
        ensures k in Rounds(ds, pous).reg
        ensures ExpandName(u, k, depth + 1) == Some(Erase(Rounds(ds, pous).reg[k]))
      {
        ClosedComplete(u, Rounds(ds, pous).reg, k);
        NameExpands(u, Rounds(ds, pous).reg, k, depth);
      }
      assert LayoutsWithin(u, Rounds(ds, pous).reg, depth + 1);
    } else {
      var p := RoundsBlocked(u, ds, pous);
    }
  }

  lemma ClosedComplete(u: Scope, reg: Registry, k: string)
    requires Closed(u, reg, {}) && k in u.env
    ensures k in reg && Complete(reg[k])
  {
  }

  /** Main result: resolution succeeds exactly when no declared type is blocked. */
  lemma SucceedsIffUnblocked(ds: seq<TypeDecl>, pous: Registry)
    requires Proper(ds, pous)
    ensures var u := AsTaken(ds, pous);
            Register(ds, pous).Resolved? <==> forall p :: Blocked(u, p) ==> p[0] !in u.env
  {
    hide Register, Erase, ExpandName, AsTaken;
    var u := AsTaken(ds, pous);
    ResolvesLayouts(ds, pous);
    AsTakenProper(ds, pous);
    if Register(ds, pous).Resolved? {
      forall p | Blocked(u, p) ensures p[0] !in u.env {
        var depth: nat :| LayoutsWithin(u, Register(ds, pous).reg, depth);
        BlockedHasNoLayout(u, p, depth);
      }
    } else {
      RejectedName(ds, pous);
    }
  }

  lemma RejectedName(ds: seq<TypeDecl>, pous: Registry)
    requires Proper(ds, pous) && Register(ds, pous).Rejected?
    ensures exists p :: Blocked(AsTaken(ds, pous), p) && p[0] in AsTaken(ds, pous).env
  {
    hide Blocked, Closed, Rounds, AsTaken, KeepsSeen;
    DuplicateIff(ds);
    StartsClosed(ds, pous);
    StartsFit(ds, pous);
    var p := RoundsBlocked(AsTaken(ds, pous), ds, pous);
  }
}

/** What a resolved TYPE looks like beside its declaration: the bounds of its arrays, its fields, values
    and base types, at any depth. */
module TypeShapes {
  import opened Wrappers
  import opened DepGraph
  import opened TypeResolution
  import opened TypeLayouts

  const NAMES := {"BOOL", "BYTE", "WORD", "DWORD", "LWORD", "SINT", "INT", "DINT", "LINT", "USINT", "UINT", "UDINT",
                  "ULINT", "REAL", "LREAL", "TIME", "LTIME", "DATE", "TOD", "DT", "LDATE", "LTOD", "LDT", "CHAR",
                  "WCHAR"}

  const DISCRETE := {"BOOL", "BYTE", "WORD", "DWORD", "LWORD", "SINT", "INT", "DINT", "LINT", "USINT", "UINT",
                     "UDINT", "ULINT"}

  /** Two characters are the same but for their case. */
  predicate SameLetter(c: char, d: char) {
    || c == d
    || ('a' <= c <= 'z' && 'A' <= d <= 'Z' && c - 'a' == d - 'A')
    || ('a' <= d <= 'z' && 'A' <= c <= 'Z' && d - 'a' == c - 'A')
  }

  /** Two names are one name exactly when they are the same but for their case. */
  lemma FoldedAlike(a: string, b: string)
    ensures Fold(a) == Fold(b) <==> |a| == |b| && forall i :: 0 <= i < |a| ==> SameLetter(a[i], b[i])
  {
    if Fold(a) == Fold(b) {
      forall i | 0 <= i < |a| ensures SameLetter(a[i], b[i]) { assert Fold(a)[i] == Fold(b)[i]; }
    }
    if |a| == |b| && forall i :: 0 <= i < |a| ==> SameLetter(a[i], b[i]) {
      forall i | 0 <= i < |a| ensures Fold(a)[i] == Fold(b)[i] { assert SameLetter(a[i], b[i]); }
    }
  }

  /** The bounds of a dimension: the lower one is 0 if it is not known, and the upper one never below it. */
  predicate Spans(r: Range, lo: int, hi: int) {
    && lo == (match r.low case Some(l) => l case None => 0)
    && match r.high
       case Some(h) => if lo <= h then hi == h else hi == lo
       case None => hi == lo
  }

  /** The type is what the specification says, whatever the names in it stand for. */
  ghost predicate Shaped(spec: Spec, ty: Ty) {
    match spec
    case Named(n) =>
      && (Fold(n) in NAMES ==> ty == Basic(Fold(n)))
      && (Fold(n) == "STRING" ==> ty == Text(false, None)) && (Fold(n) == "WSTRING" ==> ty == Text(true, None))
      && (Fold(n) == "TIME_OF_DAY" ==> ty == Basic("TOD")) && (Fold(n) == "DATE_AND_TIME" ==> ty == Basic("DT"))
    case TextOf(wide, length) => ty == Text(wide, length)
    case ArrayOf(rs, e) =>
      && ty.Array? && |ty.ranges| == |rs| && Shaped(e, ty.element)
      && forall i :: 0 <= i < |rs| ==> Spans(rs[i], ty.ranges[i].0, ty.ranges[i].1)
    case PointerTo(t) => ty.Pointer? && Shaped(t, ty.target)
    case ReferenceTo(t) => Shaped(t, ty)
    case OpenArray => ty.Unresolved?
    case SubrangeOf(b, lo, hi) =>
      && ty.Subrange? && ty.low == lo && ty.high == hi
      && (Fold(b) in NAMES ==> ty.base == Basic(Fold(b)))
    case StructOf(fs) =>
      && ty.Struct? && |ty.fields| == |fs|
      && forall i :: 0 <= i < |fs| ==> ty.fields[i].name == fs[i].name && Shaped(fs[i].spec, ty.fields[i].ty)
    case EnumOf(b, vs) =>
      && ty.Enumeration? && ty.values == vs
      && ty.base == Basic(if b.Some? && Fold(b.value) in DISCRETE then Fold(b.value) else "INT")
  }

  /** A declaration's own type: a REFERENCE is an address, and an enumeration has the declared name. */
  ghost predicate OwnShaped(spec: Spec, name: string, ty: Ty)
  {
    && (spec.ReferenceTo? ==> ty.Pointer? && OwnTarget(spec.target, ty.target))
    && (!spec.ReferenceTo? ==> Shaped(spec, ty) && (ty.Enumeration? && spec.EnumOf? ==> ty.name == name))
  }

  ghost predicate OwnTarget(spec: Spec, ty: Ty) {
    if spec.ReferenceTo? then ty.Pointer? && OwnTarget(spec.target, ty.target) else Shaped(spec, ty)
  }

  lemma NamesElementary(n: string)
    ensures Fold(n) in NAMES ==> Elementary(n) == Some(Basic(Fold(n)))
    ensures Fold(n) == "STRING" ==> Elementary(n) == Some(Text(false, None))
    ensures Fold(n) == "WSTRING" ==> Elementary(n) == Some(Text(true, None))
    ensures Fold(n) == "TIME_OF_DAY" ==> Elementary(n) == Some(Basic("TOD"))
    ensures Fold(n) == "DATE_AND_TIME" ==> Elementary(n) == Some(Basic("DT"))
    ensures Fold(n) in DISCRETE <==> Fold(n) in INTEGERS + BITS
  {
    hide Fold;
  }

  lemma BoundsSpan(r: Range)
    ensures Spans(r, Bounds(r).0, Bounds(r).1)
  {
  }

  lemma {:induction false} ResolveShaped(spec: Spec, reg: Registry)
    ensures Shaped(spec, Resolve(spec, reg))
  {
    hide Fold, Elementary, Spans, Bounds;
    match spec
    case Named(n) => NamesElementary(n);
    case ArrayOf(rs, e) =>
      ResolveShaped(e, reg);
      forall i | 0 <= i < |rs| ensures Spans(rs[i], Bounds(rs[i]).0, Bounds(rs[i]).1) { BoundsSpan(rs[i]); }
    case PointerTo(t) => ResolveShaped(t, reg);
    case ReferenceTo(t) => ResolveShaped(t, reg);
    case SubrangeOf(b, _, _) => NamesElementary(b);
    case StructOf(fs) => forall i | 0 <= i < |fs| { ResolveShaped(fs[i].spec, reg); }
    case EnumOf(b, _) => if b.Some? { NamesElementary(b.value); }
    case _ =>
  }

  lemma {:induction false} OwnTargetShaped(spec: Spec, reg: Registry)
    ensures OwnTarget(spec, ResolveOwn(spec, reg))
  {
    hide Shaped, Resolve;
    if spec.ReferenceTo? { OwnTargetShaped(spec.target, reg); } else { ResolveShaped(spec, reg); }
  }

  lemma RenamedShaped(spec: Spec, ty: Ty, name: string)
    requires Shaped(spec, ty) && !spec.ReferenceTo?
    ensures Shaped(spec, Renamed(ty, name)) && (Renamed(ty, name).Enumeration? ==> Renamed(ty, name).name == name)
  {
  }

  lemma DeclShaped(d: TypeDecl, reg: Registry)
    ensures OwnShaped(d.spec, d.name, ResolveDecl(d, reg))
  {
    hide Shaped, Resolve;
    if d.spec.ReferenceTo? {
      OwnTargetShaped(d.spec.target, reg);
    } else {
      ResolveShaped(d.spec, reg);
      RenamedShaped(d.spec, Resolve(d.spec, reg), d.name);
    }
  }

  // ----- over the rounds ---------------------------------------------------

  /** The declaration is registered, with its own shape. */
  ghost predicate Entered(d: TypeDecl, reg: Registry) { Key(d) in reg && OwnShaped(d.spec, d.name, reg[Key(d)]) }

  lemma SameKey(ds: seq<TypeDecl>, d: TypeDecl, e: TypeDecl)
    requires Distinct(ds) && d in ds && e in ds && Key(d) == Key(e)
    ensures d == e
  {
    var i :| 0 <= i < |ds| && ds[i] == d;
    var j :| 0 <= j < |ds| && ds[j] == e;
  }

  lemma {:induction false} PassEnters(ds: seq<TypeDecl>, todo: seq<TypeDecl>, reg: Registry, d: TypeDecl)
    requires Distinct(ds) && d in ds && (forall e :: e in todo ==> e in ds)
    requires d in todo || Entered(d, reg)
    ensures Entered(d, Pass(todo, reg).0)
    ensures forall p :: p in Pass(todo, reg).1 ==> p.0 in todo
  {
    hide OwnShaped, ResolveDecl, FirstUnresolved;
    if todo != [] {
      var (front, e) := (todo[..|todo| - 1], todo[|todo| - 1]);
      assert todo == front + [e] && e in todo;
      var r := Pass(front, reg).0;
      if d != e {
        PassEnters(ds, front, reg, d);
        if Key(d) == Key(e) { SameKey(ds, d, e); }
      } else {
        DeclShaped(e, r);
        StillPending(front, reg);
      }
    }
  }

  lemma {:induction false} StillPending(todo: seq<TypeDecl>, reg: Registry)
    ensures forall p :: p in Pass(todo, reg).1 ==> p.0 in todo
  {
    hide ResolveDecl, FirstUnresolved;
    if todo != [] {
      var front := todo[..|todo| - 1];
      StillPending(front, reg);
      assert todo == front + [todo[|todo| - 1]];
    }
  }

  lemma {:induction false} RoundsEnter(ds: seq<TypeDecl>, todo: seq<TypeDecl>, reg: Registry, d: TypeDecl)
    requires Distinct(ds) && d in ds && (forall e :: e in todo ==> e in ds)
    requires (d in todo || Entered(d, reg)) && Rounds(todo, reg).Resolved?
    ensures Entered(d, Rounds(todo, reg).reg)
    decreases |todo|
  {
    hide OwnShaped, Entered, Pass;
    if todo != [] {
      var (r, still) := Pass(todo, reg);
      PassEnters(ds, todo, reg, d);
      PassKeeps(todo, reg);
      if still != [] {
        forall e | e in Decls(still) ensures e in todo {
          var i :| 0 <= i < |still| && Decls(still)[i] == e;
          assert still[i] in still;
        }
        RoundsEnter(ds, Decls(still), r, d);
      }
    }
  }

  /** Main result: in a unit that resolves every declaration has the type it describes: the bounds, fields,
      values and elementary names of its specification, at any depth. */
  lemma ResolvedShaped(ds: seq<TypeDecl>, pous: Registry, d: TypeDecl)
    requires Register(ds, pous).Resolved? && d in ds
    ensures Key(d) in Register(ds, pous).reg && OwnShaped(d.spec, d.name, Register(ds, pous).reg[Key(d)])
  {
    hide OwnShaped, Rounds;
    DuplicateIff(ds);
    RoundsEnter(ds, ds, pous, d);
  }

  /** So an ARRAY has the bounds it is declared with; a lower bound that is not known is 0, and an upper one
      that is not known or too small leaves one element. */
  lemma ArrayBounds(ds: seq<TypeDecl>, pous: Registry, d: TypeDecl, i: nat)
    requires Register(ds, pous).Resolved? && d in ds && d.spec.ArrayOf? && i < |d.spec.ranges|
    ensures Key(d) in Register(ds, pous).reg
    ensures var (r, ty) := (d.spec.ranges[i], Register(ds, pous).reg[Key(d)]);
            && ty.Array? && |ty.ranges| == |d.spec.ranges|
            && var (lo, hi) := ty.ranges[i];
               && (r.low.Some? && r.high.Some? && r.low.value <= r.high.value ==>
                     lo == r.low.value && hi == r.high.value)
               && lo == (if r.low.None? then 0 else r.low.value)
               && (r.high.None? || r.high.value < lo ==> hi - lo + 1 == 1)
  {
    hide Register;
    ResolvedShaped(ds, pous, d);
  }

  // ----- extents -----------------------------------------------------------

  /** No dimension of an array in the type ends before it begins. */
  ghost predicate Ranged(ty: Ty) {
    match ty
    case Array(rs, e) => Ranged(e) && forall i :: 0 <= i < |rs| ==> rs[i].0 <= rs[i].1
    case Pointer(t) => Ranged(t)
    case Subrange(b, _, _) => Ranged(b)
    case Struct(fs) => forall i :: 0 <= i < |fs| ==> Ranged(fs[i].ty)
    case Enumeration(_, b, _) => Ranged(b)
    case _ => true
  }

  ghost predicate AllRanged(reg: Registry) { forall k :: k in reg ==> Ranged(reg[k]) }

  lemma {:induction false} ResolveRanged(spec: Spec, reg: Registry)
    requires AllRanged(reg)
    ensures Ranged(Resolve(spec, reg))
  {
    hide Fold;
    match spec
    case ArrayOf(_, e) => ResolveRanged(e, reg);
    case PointerTo(t) => ResolveRanged(t, reg);
    case ReferenceTo(t) => ResolveRanged(t, reg);
    case StructOf(fs) => forall i | 0 <= i < |fs| { ResolveRanged(fs[i].spec, reg); }
    case _ =>
  }

  lemma {:induction false} OwnRanged(spec: Spec, reg: Registry)
    requires AllRanged(reg)
    ensures Ranged(ResolveOwn(spec, reg))
  {
    hide Resolve, AllRanged;
    if spec.ReferenceTo? { OwnRanged(spec.target, reg); } else { ResolveRanged(spec, reg); }
  }

  lemma DeclRanged(d: TypeDecl, reg: Registry)
    requires AllRanged(reg)
    ensures Ranged(ResolveDecl(d, reg))
  {
    hide Resolve, ResolveOwn, AllRanged;
    OwnRanged(d.spec, reg);
    RenamedRanged(ResolveOwn(d.spec, reg), d.name);
  }

  lemma RenamedRanged(ty: Ty, name: string)
    requires Ranged(ty)
    ensures Ranged(Renamed(ty, name))
  {
  }

  lemma {:induction false} PassRanged(todo: seq<TypeDecl>, reg: Registry)
    requires AllRanged(reg)
    ensures AllRanged(Pass(todo, reg).0)
  {
    hide Ranged, ResolveDecl, FirstUnresolved;
    if todo != [] {
      PassRanged(todo[..|todo| - 1], reg);
      DeclRanged(todo[|todo| - 1], Pass(todo[..|todo| - 1], reg).0);
    }
  }

  lemma {:induction false} RoundsRanged(todo: seq<TypeDecl>, reg: Registry)
    requires AllRanged(reg) && Rounds(todo, reg).Resolved?
    ensures AllRanged(Rounds(todo, reg).reg)
    decreases |todo|
  {
    hide AllRanged, Pass;
    if todo != [] {
      var (r, still) := Pass(todo, reg);
      PassRanged(todo, reg);
      PassKeeps(todo, reg);
      if still != [] { RoundsRanged(Decls(still), r); }
    }
  }

  /** Main result: no array in any registered type, at any depth and behind any pointer, has a dimension
      without elements. */
  lemma ResolvedRanged(ds: seq<TypeDecl>, pous: Registry)
    requires AllRanged(pous) && Register(ds, pous).Resolved?
    ensures AllRanged(Register(ds, pous).reg)
  {
    hide AllRanged, Rounds;
    RoundsRanged(ds, pous);
  }
}

/** Resolution of the TYPE declarations of a unit: rounds over the declarations that still lack a
    layout, until none is left or a round completes nothing.

    Names are folded, since ST compares them without regard to case. A type's layout is what stays of
    it when everything behind a pointer is forgotten. */
module TypeResolution {
  import opened Wrappers
  import opened DepGraph

  datatype Range = Range(low: Option<int>, high: Option<int>)

  datatype FieldSpec = FieldSpec(name: string, spec: Spec)

  datatype Spec =
    | Named(name: string)
    | TextOf(wide: bool, length: Option<int>)
    | ArrayOf(ranges: seq<Range>, element: Spec)
    | PointerTo(target: Spec)
    | ReferenceTo(target: Spec)
    | OpenArray
    | SubrangeOf(base: string, low: int, high: int)
    | StructOf(fields: seq<FieldSpec>)
    | EnumOf(storage: Option<string>, values: seq<(string, int)>)

  datatype Member = Member(name: string, ty: Ty)

  datatype Ty =
    | Basic(name: string)
    | Text(wide: bool, length: Option<int>)
    | Array(ranges: seq<(int, int)>, element: Ty)
    | Pointer(target: Ty)
    | Subrange(base: Ty, low: int, high: int)
    | Struct(fields: seq<Member>)
    | Enumeration(name: string, base: Ty, values: seq<(string, int)>)
    | Instance(name: string)
    | Unresolved(name: string)

  datatype TypeDecl = TypeDecl(name: string, spec: Spec)

  type Registry = map<string, Ty>

  datatype Failure = DuplicateType(first: string, second: string) | CyclicType(typeName: string, unresolved: string)

  datatype Outcome = Resolved(reg: Registry) | Rejected(failure: Failure)

  const INTEGERS := {"SINT", "INT", "DINT", "LINT", "USINT", "UINT", "UDINT", "ULINT"}
  const BITS := {"BOOL", "BYTE", "WORD", "DWORD", "LWORD"}
  const OTHERS := {"REAL", "LREAL", "TIME", "LTIME", "DATE", "TOD", "DT", "LDATE", "LTOD", "LDT", "CHAR", "WCHAR"}

  function Elementary(name: string): Option<Ty> {
    var k := Fold(name);
    if k == "STRING" then Some(Text(false, None))
    else if k == "WSTRING" then Some(Text(true, None))
    else if k == "TIME_OF_DAY" then Some(Basic("TOD"))
    else if k == "DATE_AND_TIME" then Some(Basic("DT"))
    else if k in INTEGERS + BITS + OTHERS then Some(Basic(k))
    else None
  }

  function Lookup(name: string, reg: Registry): Option<Ty> {
    if Elementary(name).Some? then Elementary(name)
    else if Fold(name) in reg then Some(reg[Fold(name)])
    else None
  }

  function Bounds(r: Range): (int, int) {
    var low := if r.low.Some? then r.low.value else 0;
    var high := if r.high.Some? then r.high.value else low;
    (low, if high < low then low else high)
  }

  function EnumBase(base: Option<string>): Ty {
    if base.Some? && Fold(base.value) in INTEGERS + BITS then Basic(Fold(base.value)) else Basic("INT")
  }

  /** The type a specification denotes, given what has been registered so far. */
  function Resolve(spec: Spec, reg: Registry): Ty {
    match spec
    case Named(n) => var t := Lookup(n, reg); if t.Some? then t.value else Unresolved(n)
    case TextOf(wide, length) => Text(wide, length)
    case ArrayOf(rs, e) => Array(seq(|rs|, i requires 0 <= i < |rs| => Bounds(rs[i])), Resolve(e, reg))
    case PointerTo(t) => Pointer(Resolve(t, reg))
    case ReferenceTo(t) => Resolve(t, reg)
    case OpenArray => Unresolved("ARRAY[*]")
    case SubrangeOf(b, lo, hi) => var t := Lookup(b, reg); Subrange(if t.Some? then t.value else Basic("INT"), lo, hi)
    case StructOf(fs) =>
      Struct(seq(|fs|, i requires 0 <= i < |fs| => Member(fs[i].name, Resolve(fs[i].spec, reg))))
    case EnumOf(b, vs) => Enumeration("", EnumBase(b), vs)
  }

  /** A declaration's own specification: a REFERENCE there is an address. */
  function ResolveOwn(spec: Spec, reg: Registry): Ty {
    if spec.ReferenceTo? then Pointer(ResolveOwn(spec.target, reg)) else Resolve(spec, reg)
  }

  /** An enumeration takes the name of the type it is declared as. */
  function Renamed(ty: Ty, name: string): Ty {
    if ty.Enumeration? then Enumeration(name, ty.base, ty.values) else ty
  }

  function ResolveDecl(d: TypeDecl, reg: Registry): Ty { Renamed(ResolveOwn(d.spec, reg), d.name) }

  function FirstUnresolved(ty: Ty): Option<string>
    decreases ty, 1, 0
  {
    match ty
    case Unresolved(n) => Some(n)
    case Array(_, e) => FirstUnresolved(e)
    case Subrange(b, _, _) => FirstUnresolved(b)
    case Struct(_) => FirstUnresolvedField(ty, 0)
    case _ => None
  }

  function FirstUnresolvedField(ty: Ty, i: nat): Option<string>
    requires ty.Struct? && i <= |ty.fields|
    decreases ty, 0, |ty.fields| - i
  {
    if i == |ty.fields| then None
    else
      var f := FirstUnresolved(ty.fields[i].ty);
      if f.Some? then f else FirstUnresolvedField(ty, i + 1)
  }

  // ----- the rounds --------------------------------------------------------

  function Key(d: TypeDecl): string { Fold(d.name) }

  /** One round: every declaration is registered, complete or not; those that are not are kept. */
  function Pass(todo: seq<TypeDecl>, reg: Registry): (Registry, seq<(TypeDecl, string)>) {
    if todo == [] then (reg, [])
    else
      var (r, still) := Pass(todo[..|todo| - 1], reg);
      var d := todo[|todo| - 1];
      var ty := ResolveDecl(d, r);
      var u := FirstUnresolved(ty);
      (r[Key(d) := ty], if u.Some? then still + [(d, u.value)] else still)
  }

  lemma {:induction false} PassKeeps(todo: seq<TypeDecl>, reg: Registry)
    ensures |Pass(todo, reg).1| <= |todo|
  {
    if todo != [] { PassKeeps(todo[..|todo| - 1], reg); }
  }

  function Decls(still: seq<(TypeDecl, string)>): seq<TypeDecl> {
    seq(|still|, i requires 0 <= i < |still| => still[i].0)
  }

  function Rounds(todo: seq<TypeDecl>, reg: Registry): Outcome
    decreases |todo|
  {
    if todo == [] then Resolved(reg)
    else
      var (r, still) := Pass(todo, reg);
      PassKeeps(todo, reg);
      if still == [] then Resolved(r)
      else if |still| == |todo| then Rejected(CyclicType(still[0].0.name, still[0].1))
      else Rounds(Decls(still), r)
  }

  /** The spelling under which a key was declared last. */
  function Spelling(ds: seq<TypeDecl>, k: string): Option<string> {
    if ds == [] then None
    else if Key(ds[|ds| - 1]) == k then Some(ds[|ds| - 1].name)
    else Spelling(ds[..|ds| - 1], k)
  }

  /** The first two declarations of one name. */
  function Duplicate(ds: seq<TypeDecl>): Option<Failure> {
    if ds == [] then None
    else
      var (front, d) := (ds[..|ds| - 1], ds[|ds| - 1]);
      if Duplicate(front).Some? then Duplicate(front)
      else if Spelling(front, Key(d)).Some? then Some(DuplicateType(Spelling(front, Key(d)).value, d.name))
      else None
  }

  function Register(ds: seq<TypeDecl>, pous: Registry): Outcome {
    if Duplicate(ds).Some? then Rejected(Duplicate(ds).value) else Rounds(ds, pous)
  }

  /** The registry, updated in place. */
  class TypeTable {
    var types: Registry

    /** Main loop: at most one round per declaration. */
    method RegisterTypeDeclarations(ds: seq<TypeDecl>) returns (failure: Option<Failure>, ghost rounds: nat)
      modifies this
      ensures rounds <= |ds|
      ensures var o := Register(ds, old(types));
              if o.Resolved? then failure == None && types == o.reg else failure == Some(o.failure)
    {
      var seen: map<string, string> := map[];
      rounds := 0;
      for i := 0 to |ds|
        invariant types == old(types) && rounds == 0
        invariant Duplicate(ds[..i]).None?
        invariant forall k :: if k in seen then Spelling(ds[..i], k) == Some(seen[k]) else Spelling(ds[..i], k).None?
      {
        assert ds[..i + 1][..i] == ds[..i];
        var k := Key(ds[i]);
        if k in seen {
          DuplicatePrefix(ds, i + 1);
          return Some(DuplicateType(seen[k], ds[i].name)), 0;
        }
        seen := seen[k := ds[i].name];
      }
      assert ds[..|ds|] == ds;
      var pending := ds;
      while pending != []
        invariant rounds + |pending| <= |ds|
        invariant Rounds(pending, types) == Rounds(ds, old(types))
        decreases |pending|
      {
        var still := RunPass(pending);
        rounds := rounds + 1;
        if still == [] { return None, rounds; }
        if |still| == |pending| {
          return Some(CyclicType(still[0].0.name, still[0].1)), rounds;
        }
        pending := Decls(still);
      }
      return None, rounds;
    }

    method RunPass(pending: seq<TypeDecl>) returns (still: seq<(TypeDecl, string)>)
      modifies this
      ensures (types, still) == Pass(pending, old(types))
      ensures |still| <= |pending|
    {
      still := [];
      for i := 0 to |pending|
        invariant (types, still) == Pass(pending[..i], old(types))
      {
        assert pending[..i + 1][..i] == pending[..i];
        var d := pending[i];
        var ty := ResolveDecl(d, types);
        types := types[Key(d) := ty];
        var u := FirstUnresolved(ty);
        if u.Some? { still := still + [(d, u.value)]; }
      }
      assert pending[..|pending|] == pending;
      PassKeeps(pending, old(types));
    }
  }

  lemma {:induction false} DuplicatePrefix(ds: seq<TypeDecl>, n: nat)
    requires n <= |ds| && Duplicate(ds[..n]).Some?
    ensures Duplicate(ds) == Duplicate(ds[..n])
    decreases |ds| - n
  {
    if n == |ds| {
      assert ds[..n] == ds;
    } else {
      assert ds[..n + 1][..n] == ds[..n];
      DuplicatePrefix(ds, n + 1);
    }
  }
}

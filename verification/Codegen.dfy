/** The code generator: a builder positioned in a block, and the EXIT, CONTINUE and RETURN
    targets, updated while statements are compiled one after another. */
module Codegen {
  import opened Wrappers
  import opened MachineInts
  import opened Statements
  import opened Lowering
  import T = IntTyping

  // ----- what a stretch of emission leaves alone ---------------------------

  ghost predicate Within(t: Term, n: nat) {
    match t case Br(to) => to < n case CondBr(_, a, b) => a < n && b < n
  }

  /** Every terminator targets a block of the function. */
  ghost predicate TargetsOk(g: seq<Block>) {
    forall b :: 0 <= b < |g| && g[b].term.Some? ==> Within(g[b].term.value, |g|)
  }

  /** Between two graphs only block `c` was added to among the old ones, and of the new ones exactly
      those in `open` (all still empty) and `c'` have no terminator yet. */
  ghost predicate Emitted(g: seq<Block>, c: nat, g': seq<Block>, c': nat, open: set<nat>) {
    && |g| <= |g'| && c < |g| && c' < |g'|
    && (forall b :: 0 <= b < |g| && b != c ==> g'[b] == g[b])
    && g[c].instrs <= g'[c].instrs
    && (c' == c || (|g| <= c' && g'[c].term.Some?))
    && g'[c'].term.None? && c' !in open
    && (forall b :: b in open ==> |g| <= b < |g'| && g'[b] == Block([], None))
    && (forall b :: |g| <= b < |g'| && b != c' && b !in open ==> g'[b].term.Some?)
  }

  /** The same where the work ended with a terminator. */
  ghost predicate Sealed(g: seq<Block>, c: nat, g': seq<Block>, open: set<nat>) {
    && |g| <= |g'| && c < |g|
    && (forall b :: 0 <= b < |g| && b != c ==> g'[b] == g[b])
    && g[c].instrs <= g'[c].instrs && g'[c].term.Some?
    && (forall b :: b in open ==> |g| <= b < |g'| && g'[b] == Block([], None))
    && (forall b :: |g| <= b < |g'| && b !in open ==> g'[b].term.Some?)
  }

  lemma EmittedGrows(g: seq<Block>, c: nat, g': seq<Block>, c': nat, open: set<nat>)
    requires Emitted(g, c, g', c', open) && g[c].term.None?
    ensures Grows(g, g')
  {
  }

  lemma SealedGrows(g: seq<Block>, c: nat, g': seq<Block>, open: set<nat>)
    requires Sealed(g, c, g', open) && g[c].term.None?
    ensures Grows(g, g')
  {
  }

  lemma EmittedThen(g: seq<Block>, c: nat, g1: seq<Block>, c1: nat, g2: seq<Block>, c2: nat)
    requires Emitted(g, c, g1, c1, {}) && Emitted(g1, c1, g2, c2, {})
    ensures Emitted(g, c, g2, c2, {})
  {
  }

  /** Filling an open block `b` closes it. */
  lemma SealedFill(g: seq<Block>, c: nat, g1: seq<Block>, open: set<nat>, b: nat, g2: seq<Block>)
    requires Sealed(g, c, g1, open) && b in open && Sealed(g1, b, g2, {})
    ensures Sealed(g, c, g2, open - {b})
  {
  }

  /** Positioning the builder at the last open block. */
  lemma SealedOpen(g: seq<Block>, c: nat, g1: seq<Block>, b: nat)
    requires Sealed(g, c, g1, {b})
    ensures Emitted(g, c, g1, b, {})
  {
  }

  /** A loop or branch whose last open block is where the builder goes on. */
  lemma FillLast(g: seq<Block>, c: nat, g1: seq<Block>, b: nat, end: nat, g2: seq<Block>)
    requires Sealed(g, c, g1, {b, end}) && b != end && Sealed(g1, b, g2, {})
    ensures Emitted(g, c, g2, end, {}) && Grows(g1, g2) && g2[end] == Block([], None)
  {
    SealedFill(g, c, g1, {b, end}, b, g2);
    assert {b, end} - {b} == {end};
    SealedOpen(g, c, g2, end);
  }

  /** The same where two blocks have to be filled first. */
  lemma FillBoth(g: seq<Block>, c: nat, g1: seq<Block>, a: nat, b: nat, end: nat, g2: seq<Block>, g3: seq<Block>)
    requires Sealed(g, c, g1, {a, b, end}) && a != b && a != end && b != end
    requires Sealed(g1, a, g2, {}) && Sealed(g2, b, g3, {})
    ensures Emitted(g, c, g3, end, {}) && Grows(g1, g2) && Grows(g2, g3) && Grows(g1, g3)
    ensures g2[b] == Block([], None) && g3[end] == Block([], None)
  {
    SealedFill(g, c, g1, {a, b, end}, a, g2);
    assert {a, b, end} - {a} == {b, end};
    FillLast(g, c, g2, b, end, g3);
  }

  lemma TermStable(g: seq<Block>, g': seq<Block>, p: Point, t: Term)
    requires Grows(g, g') && TermAt(g, p, t)
    ensures TermAt(g', p, t)
  {
  }

  // ----- one more statement ------------------------------------------------

  ghost function AppendPart(g: seq<Block>, x: Ctx, lo: nat, ss: seq<Stmt>, i: nat, l: BodyLayout, part: Layout,
      p: Point, q: Point): (l': BodyLayout)
    requires i < |ss| && BodyRealized(g, x, lo, ss[..i], l, p) && Realizes(g, x, lo, ss[i], part, Last(l), q)
    ensures BodyRealized(g, x, lo, ss[..i + 1], l', p) && Last(l') == q
  {
    BodyLayout(l.parts + [part], l.points + [q])
  }

  lemma BodyEmpty(g: seq<Block>, x: Ctx, lo: nat, ss: seq<Stmt>, p: Point)
    ensures BodyRealized(g, x, lo, ss[..0], BodyLayout([], [p]), p)
  {
  }

  lemma BodyGrows(g0: seq<Block>, c0: nat, g: seq<Block>, c: nat, g': seq<Block>, c': nat, x: Ctx, lo: nat,
      ss: seq<Stmt>, l: BodyLayout, p: Point)
    requires Emitted(g0, c0, g, c, {}) && Emitted(g, c, g', c', {})
    requires BodyRealized(g, x, lo, ss, l, p)
    ensures Emitted(g0, c0, g', c', {})
    ensures BodyRealized(g', x, lo, ss, l, p)
  {
    EmittedThen(g0, c0, g, c, g', c');
    EmittedGrows(g, c, g', c', {});
    hide BodyRealized;
    BodyStable(g, g', x, lo, ss, l, p);
  }

  // ----- the whole of a compound statement ---------------------------------

  lemma WhileRealized(g1: seq<Block>, g2: seq<Block>, x: Ctx, lo: nat, s: Stmt, l: Layout, p: Point)
    requires s.While? && l.LLoop? && Grows(g1, g2)
    requires TermAt(g1, p, Br(l.head)) && TermAt(g1, Start(l.head), CondBr(Cond(s.cond), l.bodyB, l.end))
    requires BodyRealized(g2, x.(exit := Some(l.end), cont := Some(l.head)), lo, s.body, l.body, Start(l.bodyB))
    requires TermAt(g2, Last(l.body), Br(l.head))
    ensures Realizes(g2, x, lo, s, l, p, Start(l.end))
  {
    hide BodyRealized;
  }

  lemma RepeatRealized(g1: seq<Block>, g2: seq<Block>, g3: seq<Block>, x: Ctx, lo: nat, s: Stmt, l: Layout, p: Point)
    requires s.Repeat? && l.LLoop? && Grows(g1, g3) && Grows(g2, g3)
    requires TermAt(g1, p, Br(l.bodyB))
    requires BodyRealized(g2, x.(exit := Some(l.end), cont := Some(l.head)), lo, s.body, l.body, Start(l.bodyB))
    requires TermAt(g2, Last(l.body), Br(l.head))
    requires TermAt(g3, Start(l.head), CondBr(Cond(s.until), l.end, l.bodyB))
    ensures Realizes(g3, x, lo, s, l, p, Start(l.end))
  {
    BodyStable(g2, g3, x.(exit := Some(l.end), cont := Some(l.head)), lo, s.body, l.body, Start(l.bodyB));
    hide BodyRealized;
  }

  lemma ForRealized(g1: seq<Block>, g2: seq<Block>, g3: seq<Block>, x: Ctx, lo: nat, s: Stmt, l: Layout, p: Point)
    requires s.For? && l.LFor? && Grows(g1, g3) && Grows(g2, g3)
    requires ForEntry(g1, lo, s, l, p)
    requires TermAt(g1, Start(l.head), CondBr(Bound(Head(s), l.to, l.step), l.bodyB, l.end))
    requires BodyRealized(g2, x.(exit := Some(l.end), cont := Some(l.inc)), BodyFloor(l), s.body, l.body,
              Start(l.bodyB))
    requires TermAt(g2, Last(l.body), Br(l.inc))
    requires InstrAt(g3, Start(l.inc), IAdvance(Head(s), l.step)) && TermAt(g3, Next(Start(l.inc)), Br(l.head))
    ensures Realizes(g3, x, lo, s, l, p, Start(l.end))
  {
    BodyStable(g2, g3, x.(exit := Some(l.end), cont := Some(l.inc)), BodyFloor(l), s.body, l.body, Start(l.bodyB));
    EntryStable(g1, g3, lo, s, l, p);
    hide BodyRealized, ForEntry;
  }

  lemma EntryStable(g: seq<Block>, g': seq<Block>, lo: nat, s: Stmt, l: Layout, p: Point)
    requires s.For? && l.LFor? && Grows(g, g') && ForEntry(g, lo, s, l, p)
    ensures ForEntry(g', lo, s, l, p)
  {
  }

  /** The straight-line start of a FOR, from p to q. */
  ghost predicate HeadEvaluated(g: seq<Block>, s: Stmt, from: nat, to: nat, step: Operand, p: Point, q: Point)
    requires s.For?
  {
    && InstrAt(g, p, ISet(from, s.from))
    && InstrAt(g, Next(p), ISet(to, s.to))
    && InstrAt(g, Next(Next(p)), IStoreReg(s.x, s.xt, from, s.from.ty))
    && match s.stepBy
       case None => step == Konst(Val(T.BitSize(s.xt), 1)) && q == Next(Next(Next(p)))
       case Some(e) =>
         && step.Reg? && InstrAt(g, Next(Next(Next(p))), ISet(step.r, e))
         && q == Next(Next(Next(Next(p))))
  }

  lemma EntryComplete(g0: seq<Block>, g: seq<Block>, g': seq<Block>, c: nat, lo: nat, s: Stmt, l: Layout, p: Point,
      open: set<nat>)
    requires s.For? && l.LFor? && lo <= l.from < l.to && (l.step.Reg? ==> l.to < l.step.r)
    requires Emitted(g0, c, g, c, {}) && |g| == |g0|
    requires HeadEvaluated(g, s, l.from, l.to, l.step, p, Point(c, |g[c].instrs|))
    requires Sealed(g, c, g', open) && TermAt(g', Point(c, |g[c].instrs|), Br(l.head))
    ensures ForEntry(g', lo, s, l, p) && Sealed(g0, c, g', open)
  {
    SealedGrows(g, c, g', open);
  }

  lemma EntryWith(g: seq<Block>, lo: nat, s: Stmt, l: Layout, body: BodyLayout, p: Point)
    requires s.For? && l.LFor? && ForEntry(g, lo, s, l, p)
    ensures ForEntry(g, lo, s, WithBody(l, body), p)
  {
  }

  function WithBody(l: Layout, body: BodyLayout): Layout
    requires l.LFor?
  {
    LFor(l.head, l.bodyB, l.inc, l.end, l.from, l.to, l.step, body)
  }

  lemma IfRealized(g1: seq<Block>, g2: seq<Block>, g3: seq<Block>, x: Ctx, lo: nat, s: Stmt, l: Layout, p: Point)
    requires s.If? && l.LIf? && Grows(g1, g3) && Grows(g2, g3)
    requires TermAt(g1, p, CondBr(Cond(s.cond), l.thenB, l.elseB))
    requires BodyRealized(g2, x, lo, s.thenBody, l.body, Start(l.thenB))
    requires TermAt(g2, Last(l.body), Br(l.merge))
    requires if s.elsifs == [] && s.els.NoElse? then l.elseB == l.merge else ChainRealized(g3, x, lo, s, l)
    ensures Realizes(g3, x, lo, s, l, p, Start(l.merge))
  {
    BodyStable(g2, g3, x, lo, s.thenBody, l.body, Start(l.thenB));
    hide BodyRealized, ChainRealized;
  }

  lemma GrowsSelf(g: seq<Block>)
    ensures Grows(g, g)
  {
  }

  lemma EmittedSelf(g: seq<Block>, c: nat)
    requires c < |g| && g[c].term.None?
    ensures Emitted(g, c, g, c, {})
  {
  }

  lemma StillEmpty(g: seq<Block>, c: nat, g': seq<Block>, open: set<nat>, b: nat)
    requires Sealed(g, c, g', open) && b < |g| && b != c
    ensures b < |g'| && g'[b] == g[b]
  {
  }

  lemma EmittedThenSealed(g: seq<Block>, c: nat, g1: seq<Block>, c1: nat, g2: seq<Block>)
    requires Emitted(g, c, g1, c1, {}) && Sealed(g1, c1, g2, {})
    ensures Sealed(g, c, g2, {}) && Grows(g1, g2)
  {
  }

  lemma ArmsEmpty(g: seq<Block>, x: Ctx, lo: nat, es: seq<Elsif>, c: nat, merge: nat)
    ensures ArmsRealized(g, x, lo, es[..0], c, [], merge)
  {
  }

  /** One more ELSIF. */
  lemma ArmsStep(g0: seq<Block>, c0: nat, g: seq<Block>, c: nat, g': seq<Block>, c': nat, x: Ctx, lo: nat,
      es: seq<Elsif>, i: nat, arms: seq<Arm>, a: Arm, merge: nat)
    requires i < |es| && |arms| == i
    requires Emitted(g0, c0, g, c, {}) && Emitted(g, c, g', c', {})
    requires ArmsRealized(g, x, lo, es[..i], c0, arms, merge) && Start(c) == ElsePoint(c0, arms, i)
    requires ArmRealized(g', x, lo, es[i], a, Start(c), merge)
    ensures Emitted(g0, c0, g', c', {})
    ensures ArmsRealized(g', x, lo, es[..i + 1], c0, arms + [a], merge)
  {
    EmittedThen(g0, c0, g, c, g', c');
    EmittedGrows(g, c, g', c', {});
    ArmsStable(g, g', x, lo, es[..i], c0, arms, merge);
    hide ArmRealized, Emitted, Grows;
    forall j | 0 <= j < i + 1
      ensures ArmRealized(g', x, lo, es[..i + 1][j], (arms + [a])[j], ElsePoint(c0, arms + [a], j), merge)
    {
      if j < i { assert ArmRealized(g', x, lo, es[..i][j], arms[j], ElsePoint(c0, arms, j), merge); }
    }
  }

  // ----- CASE --------------------------------------------------------------

  ghost function Elems(bs: seq<nat>): set<nat> { set b | b in bs }

  /** Each of the blocks in `bs`, so far open, has been filled and closed. */
  ghost predicate FilledAll(g: seq<Block>, g': seq<Block>, bs: set<nat>) {
    && |g| <= |g'|
    && (forall b :: 0 <= b < |g| && b !in bs ==> g'[b] == g[b])
    && (forall b :: b in bs ==> b < |g| && g[b].instrs <= g'[b].instrs && g'[b].term.Some?)
    && (forall b :: |g| <= b < |g'| ==> g'[b].term.Some?)
  }

  lemma FilledAllStep(g: seq<Block>, g1: seq<Block>, bs: seq<nat>, i: nat, g2: seq<Block>)
    requires i < |bs| && FilledAll(g, g1, Elems(bs[..i])) && Sealed(g1, bs[i], g2, {})
    requires bs[i] < |g| && g[bs[i]].term.None? && bs[i] !in bs[..i]
    ensures FilledAll(g, g2, Elems(bs[..i + 1])) && Grows(g1, g2)
  {
    assert bs[..i + 1] == bs[..i] + [bs[i]];
    assert Elems(bs[..i + 1]) == Elems(bs[..i]) + {bs[i]};
  }

  lemma SealedFillAll(g: seq<Block>, c: nat, g1: seq<Block>, rest: set<nat>, bs: set<nat>, g2: seq<Block>)
    requires Sealed(g, c, g1, rest + bs) && rest !! bs && FilledAll(g1, g2, bs)
    ensures Sealed(g, c, g2, rest) && Grows(g1, g2)
  {
  }

  lemma CaseOpened(g: seq<Block>, c: nat, g0: seq<Block>, g1: seq<Block>, rest: set<nat>, bs: set<nat>, p: Point,
      i: Instr)
    requires Emitted(g, c, g0, c, rest) && Sealed(g0, c, g1, bs) && InstrAt(g0, p, i)
    ensures Sealed(g, c, g1, rest + bs) && rest !! bs && InstrAt(g1, p, i)
  {
  }

  /** The first n tests of a CASE. */
  ghost predicate TestsRealized(g: seq<Block>, s: Stmt, sel: nat, n: nat, arms: seq<Arm>, thenBs: seq<nat>,
      first: Point)
    requires s.Case? && n <= |s.branches|
  {
    && |arms| == |thenBs| == n && TestsLinked(arms, first)
    && (forall i :: 0 <= i < n ==> arms[i].thenB == thenBs[i])
    && (forall i :: 0 <= i < n ==> TestRealized(g, s, sel, i, arms[i]))
  }

  lemma TestsStep(g: seq<Block>, g': seq<Block>, s: Stmt, sel: nat, n: nat, arms: seq<Arm>, thenBs: seq<nat>,
      first: Point, a: Arm)
    requires s.Case? && n < |s.branches| && TestsRealized(g, s, sel, n, arms, thenBs, first) && Grows(g, g')
    requires TestRealized(g', s, sel, n, a) && a.test == if n == 0 then first else Start(arms[n - 1].elseB)
    ensures TestsRealized(g', s, sel, n + 1, arms + [a], thenBs + [a.thenB], first)
  {
    forall i | 0 <= i < n + 1
      ensures TestRealized(g', s, sel, i, (arms + [a])[i])
    {
      if i < n { assert TestRealized(g, s, sel, i, arms[i]); }
    }
    hide TestRealized;
  }

  /** The builder among the tests: still in an open block, or done with the last one. */
  ghost predicate Testing(g: seq<Block>, c: nat, g': seq<Block>, c': nat, open: set<nat>, done: bool) {
    if done then Sealed(g, c, g', open) else Emitted(g, c, g', c', open)
  }

  lemma TestingStep(g: seq<Block>, c: nat, g1: seq<Block>, c1: nat, bs: seq<nat>, g2: seq<Block>, c2: nat, b: nat,
      done: bool)
    requires Testing(g, c, g1, c1, Elems(bs), false) && Testing(g1, c1, g2, c2, {b}, done) && g1[c1].term.None?
    ensures Testing(g, c, g2, c2, Elems(bs + [b]), done) && Grows(g1, g2) && b !in bs
  {
    assert Elems(bs + [b]) == Elems(bs) + {b};
  }

  ghost predicate Distinct(bs: seq<nat>) { forall i :: 0 <= i < |bs| ==> bs[i] !in bs[..i] }

  lemma DistinctSnoc(bs: seq<nat>, b: nat)
    requires Distinct(bs) && b !in bs
    ensures Distinct(bs + [b])
  {
    forall i | 0 <= i < |bs| + 1
      ensures (bs + [b])[i] !in (bs + [b])[..i]
    {
      assert (bs + [b])[..i] == bs[..i];
    }
  }

  lemma NoTests(g: seq<Block>, c: nat, s: Stmt, sel: nat, first: Point)
    requires c < |g| && g[c].term.None? && s.Case?
    ensures Testing(g, c, g, c, Elems([]), false) && TestsRealized(g, s, sel, 0, [], [], first) && Distinct([])
  {
  }

  lemma NoTestsAfter(g: seq<Block>, s: Stmt, sel: nat, first: Point)
    requires s.Case?
    ensures TestsRealized(g, s, sel, 0, [], [], first) && Distinct([])
  {
  }

  lemma TestsCount(g: seq<Block>, s: Stmt, sel: nat, n: nat, arms: seq<Arm>, thenBs: seq<nat>, first: Point)
    requires s.Case? && n <= |s.branches| && TestsRealized(g, s, sel, n, arms, thenBs, first)
    ensures |arms| == |thenBs| == n
  {
  }

  lemma TestingDone(g: seq<Block>, c: nat, g': seq<Block>, c': nat, open: set<nat>)
    requires Testing(g, c, g', c', open, true)
    ensures Sealed(g, c, g', open)
  {
  }

  lemma TestShape(g: seq<Block>, s: Stmt, sel: nat, i: nat, a: Arm)
    requires s.Case? && i < |s.branches|
    requires s.branches[i].labels == [] ==> TermAt(g, a.test, Br(a.elseB))
    requires s.branches[i].labels != [] ==> TermAt(g, a.test, CondBr(Labels(s.branches[i].labels, sel,
              s.selector.ty), a.thenB, a.elseB))
    ensures TestRealized(g, s, sel, i, a)
  {
  }

  lemma SealedIsOpen(g: seq<Block>, c: nat, g': seq<Block>, open: set<nat>, b: nat)
    requires Sealed(g, c, g', open) && b in open
    ensures b < |g'| && g'[b] == Block([], None)
  {
  }

  lemma SealedOpens(g: seq<Block>, c: nat, g': seq<Block>, bs: seq<nat>)
    requires Sealed(g, c, g', Elems(bs))
    ensures forall i :: 0 <= i < |bs| ==> bs[i] < |g'| && g'[bs[i]] == Block([], None)
  {
    forall i | 0 <= i < |bs|
      ensures bs[i] in Elems(bs)
    {
    }
  }

  ghost function WithBodies(arms: seq<Arm>, bodies: seq<BodyLayout>): seq<Arm>
    requires |arms| == |bodies|
  {
    seq(|arms|, i requires 0 <= i < |arms| => Arm(arms[i].thenB, arms[i].elseB, arms[i].test, bodies[i]))
  }

  ghost predicate BodiesRealized(g: seq<Block>, x: Ctx, lo: nat, bs: seq<Branch>, n: nat, bodies: seq<BodyLayout>,
      thenBs: seq<nat>, end: nat)
    requires n <= |bs|
  {
    && |bodies| == n <= |thenBs|
    && forall i :: 0 <= i < n ==>
         BodyRealized(g, x, lo, bs[i].body, bodies[i], Start(thenBs[i])) && TermAt(g, Last(bodies[i]), Br(end))
  }

  lemma BodiesStable(g: seq<Block>, g': seq<Block>, x: Ctx, lo: nat, bs: seq<Branch>, n: nat,
      bodies: seq<BodyLayout>, thenBs: seq<nat>, end: nat)
    requires n <= |bs| && Grows(g, g') && BodiesRealized(g, x, lo, bs, n, bodies, thenBs, end)
    ensures BodiesRealized(g', x, lo, bs, n, bodies, thenBs, end)
  {
    forall i | 0 <= i < n
      ensures BodyRealized(g', x, lo, bs[i].body, bodies[i], Start(thenBs[i]))
    {
      BodyStable(g, g', x, lo, bs[i].body, bodies[i], Start(thenBs[i]));
    }
    hide BodyRealized;
  }

  lemma FilledNone(g: seq<Block>, bs: seq<nat>)
    ensures FilledAll(g, g, Elems(bs[..0]))
  {
  }

  lemma FilledNotYet(g: seq<Block>, g': seq<Block>, bs: seq<nat>, i: nat)
    requires i < |bs| && FilledAll(g, g', Elems(bs[..i])) && bs[i] < |g| && bs[i] !in bs[..i]
    ensures bs[i] < |g'| && g'[bs[i]] == g[bs[i]]
  {
  }

  lemma BodiesNone(g: seq<Block>, x: Ctx, lo: nat, bs: seq<Branch>, thenBs: seq<nat>, end: nat)
    ensures BodiesRealized(g, x, lo, bs, 0, [], thenBs, end)
  {
  }

  lemma BodiesCount(g: seq<Block>, x: Ctx, lo: nat, bs: seq<Branch>, bodies: seq<BodyLayout>, thenBs: seq<nat>,
      end: nat)
    requires BodiesRealized(g, x, lo, bs, |bs|, bodies, thenBs, end)
    ensures |bodies| == |bs|
  {
  }

  lemma BodiesStep(g: seq<Block>, x: Ctx, lo: nat, bs: seq<Branch>, n: nat, bodies: seq<BodyLayout>,
      body: BodyLayout, thenBs: seq<nat>, end: nat)
    requires n < |bs| && BodiesRealized(g, x, lo, bs, n, bodies, thenBs, end) && n < |thenBs|
    requires BodyRealized(g, x, lo, bs[n].body, body, Start(thenBs[n])) && TermAt(g, Last(body), Br(end))
    ensures BodiesRealized(g, x, lo, bs, n + 1, bodies + [body], thenBs, end)
  {
    hide BodyRealized;
  }

  lemma TestsStable(g: seq<Block>, g': seq<Block>, s: Stmt, sel: nat, n: nat, arms: seq<Arm>, thenBs: seq<nat>,
      first: Point, elseB: nat)
    requires s.Case? && n <= |s.branches| && TestsRealized(g, s, sel, n, arms, thenBs, first) && Grows(g, g')
    requires if arms == [] then TermAt(g, first, Br(elseB)) else arms[|arms| - 1].elseB == elseB
    ensures TestsRealized(g', s, sel, n, arms, thenBs, first)
    ensures if arms == [] then TermAt(g', first, Br(elseB)) else arms[|arms| - 1].elseB == elseB
  {
    forall i | 0 <= i < n
      ensures TestRealized(g', s, sel, i, arms[i])
    {
      assert TestRealized(g, s, sel, i, arms[i]);
    }
    hide TestRealized;
  }

  lemma GrowsTrans(g1: seq<Block>, g2: seq<Block>, g3: seq<Block>)
    requires Grows(g1, g2) && Grows(g2, g3)
    ensures Grows(g1, g3)
  {
  }

  lemma InstrStable(g: seq<Block>, g': seq<Block>, p: Point, i: Instr)
    requires Grows(g, g') && InstrAt(g, p, i)
    ensures InstrAt(g', p, i)
  {
  }

  lemma CaseDone(g1: seq<Block>, g2: seq<Block>, g3: seq<Block>, x: Ctx, lo: nat, s: Stmt, l: Layout, arms: seq<Arm>,
      bodies: seq<BodyLayout>, thenBs: seq<nat>, p: Point)
    requires s.Case? && l.LCase? && lo <= l.sel && Grows(g1, g2) && Grows(g2, g3)
    requires InstrAt(g1, p, ISet(l.sel, s.selector))
    requires TestsRealized(g1, s, l.sel, |s.branches|, arms, thenBs, Next(p))
    requires if arms == [] then TermAt(g1, Next(p), Br(l.elseB)) else arms[|arms| - 1].elseB == l.elseB
    requires BodiesRealized(g2, x, lo, s.branches, |s.branches|, bodies, thenBs, l.end)
    requires |arms| == |bodies| && l.arms == WithBodies(arms, bodies)
    requires if s.els.NoElse? then l.elseB == l.end
             else BodyRealized(g3, x, lo, s.els.body, l.els, Start(l.elseB)) && TermAt(g3, Last(l.els), Br(l.end))
    ensures Realizes(g3, x, lo, s, l, p, Start(l.end))
  {
    hide BodyRealized, TestRealized, Grows, TermAt, InstrAt;
    BodiesStable(g2, g3, x, lo, s.branches, |s.branches|, bodies, thenBs, l.end);
    GrowsTrans(g1, g2, g3);
    TestsStable(g1, g3, s, l.sel, |s.branches|, arms, thenBs, Next(p), l.elseB);
    InstrStable(g1, g3, p, ISet(l.sel, s.selector));
    SameTests(g3, s, l.sel, arms, bodies, thenBs, Next(p));
    assert CaseRealized(g3, x, lo, s, l, Next(p));
  }

  /** The tests do not depend on the layouts of the bodies. */
  lemma SameTests(g: seq<Block>, s: Stmt, sel: nat, arms: seq<Arm>, bodies: seq<BodyLayout>, thenBs: seq<nat>,
      first: Point)
    requires s.Case? && TestsRealized(g, s, sel, |s.branches|, arms, thenBs, first) && |arms| == |bodies|
    ensures TestsLinked(WithBodies(arms, bodies), first)
    ensures forall i :: 0 <= i < |s.branches| ==> TestRealized(g, s, sel, i, WithBodies(arms, bodies)[i])
  {
    forall i | 0 <= i < |s.branches|
      ensures TestRealized(g, s, sel, i, WithBodies(arms, bodies)[i])
    {
      assert TestRealized(g, s, sel, i, arms[i]);
    }
    hide TestRealized;
  }

  // ----- the generator -----------------------------------------------------

  class Compiler {
    var blocks: seq<Block>
    var current: nat
    var loopExit: Option<nat>
    var loopContinue: Option<nat>
    var returnBb: Option<nat>
    var resultVar: ResultVar
    var nextReg: nat

    /** The builder stands in a block that has no terminator yet. */
    ghost predicate Open()
      reads this
    {
      current < |blocks| && blocks[current].term.None?
    }

    ghost predicate Good(lo: nat)
      reads this
    {
      && Open() && TargetsOk(blocks) && lo <= nextReg
      && (loopExit.Some? ==> loopExit.value < |blocks|)
      && (loopContinue.Some? ==> loopContinue.value < |blocks|)
      && (returnBb.Some? ==> returnBb.value < |blocks|)
    }

    ghost function Here(): Point
      reads this
      requires current < |blocks|
    {
      Point(current, |blocks[current].instrs|)
    }

    ghost function Context(): Ctx
      reads this
    {
      Ctx(loopExit, loopContinue, returnBb, resultVar)
    }

    function Surroundings(): Scope
      reads this
    {
      Scope(loopExit.Some? && loopContinue.Some?, returnBb.Some?, resultVar.Some?)
    }

    /** `append_basic_block`. */
    method AppendBlock() returns (b: nat)
      modifies `blocks
      ensures b == |old(blocks)| && blocks == old(blocks) + [Block([], None)]
    {
      b := |blocks|;
      blocks := blocks + [Block([], None)];
    }

    method Emit(i: Instr)
      requires Open()
      modifies `blocks
      ensures blocks == old(blocks)[current := Block(old(blocks[current].instrs) + [i], None)]
    {
      blocks := blocks[current := Block(blocks[current].instrs + [i], None)];
    }

    method Terminate(t: Term)
      requires Open()
      modifies `blocks
      ensures blocks == old(blocks)[current := Block(old(blocks[current].instrs), Some(t))]
    {
      blocks := blocks[current := Block(blocks[current].instrs, Some(t))];
    }

    /** Leave the current block for `target`, unless it has been left already. */
    method BranchToJoin(target: nat)
      requires current < |blocks|
      modifies `blocks
      ensures old(blocks[current].term.Some?) ==> blocks == old(blocks)
      ensures old(blocks[current].term.None?) ==>
                blocks == old(blocks)[current := Block(old(blocks[current].instrs), Some(Br(target)))]
    {
      if blocks[current].term.Some? { return; }
      Terminate(Br(target));
    }

    method FreshReg() returns (r: nat)
      modifies `nextReg
      ensures r == old(nextReg) && nextReg == r + 1
    {
      r := nextReg;
      nextReg := nextReg + 1;
    }

    method CompileStatement(s: Stmt, ghost lo: nat) returns (ok: bool, ghost l: Layout)
      requires Good(lo)
      modifies this
      ensures ok == Accepted(s, old(Surroundings()))
      ensures ok ==> Good(lo) && Context() == old(Context()) && nextReg >= old(nextReg)
      ensures ok ==> Emitted(old(blocks), old(current), blocks, current, {})
      ensures ok ==> Realizes(blocks, Context(), lo, s, l, old(Here()), Here())
      decreases s, 2
    {
      hide BodyRealized, ChainRealized, CaseRealized, ForEntry, AllAccepted;
      l := LSimple;
      ok := true;
      match s
      case Empty =>
      case Assign(x, xt, e) => Emit(IAssign(x, xt, e));
      case If(_, _, _, _) => ok, l := CompileIf(s, lo);
      case For(_, _, _, _, _, _) => ok, l := CompileFor(s, lo);
      case While(_, _) => ok, l := CompileWhile(s, lo);
      case Repeat(_, _) => ok, l := CompileRepeat(s, lo);
      case Case(_, _, _) => ok, l := CompileCase(s, lo);
      case Exit =>
        if loopExit.None? || loopContinue.None? { ok := false; return; }
        Leave(loopExit.value);
      case Continue =>
        if loopExit.None? || loopContinue.None? { ok := false; return; }
        Leave(loopContinue.value);
      case Return(v) => ok := CompileReturn(v);
    }

    /** EXIT and CONTINUE: branch away, and go on in a fresh block that nothing reaches. */
    method Leave(target: nat)
      requires Open() && TargetsOk(blocks) && target < |blocks|
      modifies `blocks, `current
      ensures Open() && TargetsOk(blocks) && Emitted(old(blocks), old(current), blocks, current, {})
      ensures TermAt(blocks, old(Here()), Br(target))
    {
      Terminate(Br(target));
      current := AppendBlock();
    }

    method CompileReturn(value: Option<Rvalue>) returns (ok: bool)
      requires Open() && TargetsOk(blocks) && (returnBb.Some? ==> returnBb.value < |blocks|)
      modifies `blocks, `current
      ensures ok == (returnBb.Some? && (value.Some? ==> resultVar.Some?))
      ensures ok ==> Open() && TargetsOk(blocks) && Emitted(old(blocks), old(current), blocks, current, {})
      ensures ok && value.None? ==> TermAt(blocks, old(Here()), Br(returnBb.value))
      ensures ok && value.Some? ==>
                && InstrAt(blocks, old(Here()), IAssign(resultVar.value.0, resultVar.value.1, value.value))
                && TermAt(blocks, Next(old(Here())), Br(returnBb.value))
    {
      if returnBb.None? { return false; }
      if value.Some? {
        if resultVar.None? { return false; }
        Emit(IAssign(resultVar.value.0, resultVar.value.1, value.value));
      }
      BranchToJoin(returnBb.value);
      current := AppendBlock();
      ok := true;
    }

    method CompileBody(ss: seq<Stmt>, ghost lo: nat) returns (ok: bool, ghost l: BodyLayout)
      requires Good(lo)
      modifies this
      ensures ok == AllAccepted(ss, old(Surroundings()))
      ensures ok ==> Good(lo) && Context() == old(Context()) && nextReg >= old(nextReg)
      ensures ok ==> Emitted(old(blocks), old(current), blocks, current, {})
      ensures ok ==> BodyRealized(blocks, Context(), lo, ss, l, old(Here())) && Last(l) == Here()
      decreases ss, 0
    {
      hide Emitted, BodyRealized, Realizes, Accepted, TargetsOk;
      l := BodyLayout([], [Here()]);
      EmittedSelf(blocks, current);
      BodyEmpty(blocks, Context(), lo, ss, Here());
      for i := 0 to |ss|
        invariant Good(lo) && Context() == old(Context()) && nextReg >= old(nextReg)
        invariant forall j :: 0 <= j < i ==> Accepted(ss[j], Surroundings())
        invariant Emitted(old(blocks), old(current), blocks, current, {})
        invariant BodyRealized(blocks, Context(), lo, ss[..i], l, old(Here())) && Last(l) == Here()
      {
        ghost var g, c := blocks, current;
        ghost var part;
        ok, part := CompileStatement(ss[i], lo);
        if !ok { return; }
        BodyGrows(old(blocks), old(current), g, c, blocks, current, Context(), lo, ss[..i], l, old(Here()));
        l := AppendPart(blocks, Context(), lo, ss, i, l, part, old(Here()), Here());
      }
      assert ss[..|ss|] == ss;
      ok := true;
    }

    /** Position at an open block, compile a body there, and branch to the join. */
    method CompileBranch(at: nat, ss: seq<Stmt>, join: nat, ghost lo: nat) returns (ok: bool, ghost l: BodyLayout)
      requires at < |blocks| && blocks[at].term.None? && join < |blocks|
      requires TargetsOk(blocks) && lo <= nextReg
      requires (loopExit.Some? ==> loopExit.value < |blocks|) && (loopContinue.Some? ==> loopContinue.value < |blocks|)
      requires returnBb.Some? ==> returnBb.value < |blocks|
      modifies this
      ensures ok == AllAccepted(ss, old(Surroundings()))
      ensures ok ==> TargetsOk(blocks) && Context() == old(Context()) && nextReg >= old(nextReg)
      ensures ok ==> Sealed(old(blocks), at, blocks, {})
      ensures ok ==> BodyRealized(blocks, Context(), lo, ss, l, Point(at, |old(blocks)[at].instrs|))
      ensures ok ==> TermAt(blocks, Last(l), Br(join))
      decreases ss, 1
    {
      current := at;
      ok, l := CompileBody(ss, lo);
      if !ok { return; }
      ghost var g := blocks;
      BranchToJoin(join);
      BodyStable(g, blocks, Context(), lo, ss, l, Point(at, |old(blocks)[at].instrs|));
    }

    method CompileWhile(s: Stmt, ghost lo: nat) returns (ok: bool, ghost l: Layout)
      requires Good(lo) && s.While?
      modifies this
      ensures ok == Accepted(s, old(Surroundings()))
      ensures ok ==> Good(lo) && Context() == old(Context()) && nextReg >= old(nextReg)
      ensures ok ==> Emitted(old(blocks), old(current), blocks, current, {})
      ensures ok ==> Realizes(blocks, Context(), lo, s, l, old(Here()), Here())
      decreases s, 1
    {
      hide Emitted, Sealed, BodyRealized, Realizes, AllAccepted, TargetsOk, Grows;
      var condB, bodyB, endB := EnterWhile(s.cond);
      ghost var g := blocks;
      var prevExit, prevContinue := loopExit, loopContinue;
      loopExit, loopContinue := Some(endB), Some(condB);
      l := LSimple;
      ghost var body;
      ok, body := CompileBranch(bodyB, s.body, condB, lo);
      if !ok { return; }
      FillLast(old(blocks), old(current), g, bodyB, endB, blocks);
      current := endB;
      loopExit, loopContinue := prevExit, prevContinue;
      l := LLoop(condB, bodyB, endB, body);
      WhileRealized(g, blocks, Context(), lo, s, l, old(Here()));
    }

    /** The blocks of a WHILE, and its condition. */
    method EnterWhile(cond: Rvalue) returns (condB: nat, bodyB: nat, endB: nat)
      requires Open() && TargetsOk(blocks)
      modifies `blocks, `current
      ensures TargetsOk(blocks) && condB < |blocks| && bodyB < |blocks| && endB < |blocks| && bodyB != endB
      ensures Sealed(old(blocks), old(current), blocks, {bodyB, endB})
      ensures blocks[bodyB] == Block([], None)
      ensures TermAt(blocks, old(Here()), Br(condB)) && TermAt(blocks, Start(condB), CondBr(Cond(cond), bodyB, endB))
    {
      condB := AppendBlock();
      bodyB := AppendBlock();
      endB := AppendBlock();
      Terminate(Br(condB));
      current := condB;
      Terminate(CondBr(Cond(cond), bodyB, endB));
    }

    method CompileRepeat(s: Stmt, ghost lo: nat) returns (ok: bool, ghost l: Layout)
      requires Good(lo) && s.Repeat?
      modifies this
      ensures ok == Accepted(s, old(Surroundings()))
      ensures ok ==> Good(lo) && Context() == old(Context()) && nextReg >= old(nextReg)
      ensures ok ==> Emitted(old(blocks), old(current), blocks, current, {})
      ensures ok ==> Realizes(blocks, Context(), lo, s, l, old(Here()), Here())
      decreases s, 1
    {
      hide Emitted, Sealed, BodyRealized, Realizes, AllAccepted, TargetsOk, Grows;
      var bodyB, condB, endB := EnterRepeat();
      ghost var g := blocks;
      var prevExit, prevContinue := loopExit, loopContinue;
      loopExit, loopContinue := Some(endB), Some(condB);
      l := LSimple;
      ghost var body;
      ok, body := CompileBranch(bodyB, s.body, condB, lo);
      if !ok { return; }
      ghost var g1 := blocks;
      StillEmpty(g, bodyB, g1, {}, condB);
      CloseUntil(s.until, condB, bodyB, endB);
      FillBoth(old(blocks), old(current), g, bodyB, condB, endB, g1, blocks);
      current := endB;
      loopExit, loopContinue := prevExit, prevContinue;
      l := LLoop(condB, bodyB, endB, body);
      RepeatRealized(g, g1, blocks, Context(), lo, s, l, old(Here()));
    }

    /** The blocks of a REPEAT, and the jump into its body. */
    method EnterRepeat() returns (bodyB: nat, condB: nat, endB: nat)
      requires Open() && TargetsOk(blocks)
      modifies `blocks
      ensures TargetsOk(blocks) && bodyB < |blocks| && condB < |blocks| && endB < |blocks|
      ensures bodyB != condB && bodyB != endB && condB != endB
      ensures Sealed(old(blocks), current, blocks, {bodyB, condB, endB})
      ensures blocks[bodyB] == blocks[condB] == Block([], None)
      ensures TermAt(blocks, old(Here()), Br(bodyB))
    {
      bodyB := AppendBlock();
      condB := AppendBlock();
      endB := AppendBlock();
      Terminate(Br(bodyB));
    }

    /** The UNTIL test: leave the loop when true. */
    method CloseUntil(until: Rvalue, condB: nat, bodyB: nat, endB: nat)
      requires condB < |blocks| && blocks[condB] == Block([],
                None) && bodyB < |blocks| && endB < |blocks| && TargetsOk(blocks)
      modifies `blocks, `current
      ensures TargetsOk(blocks) && Sealed(old(blocks), condB, blocks, {}) && |blocks| == |old(blocks)|
      ensures TermAt(blocks, Start(condB), CondBr(Cond(until), endB, bodyB))
    {
      current := condB;
      Terminate(CondBr(Cond(until), endB, bodyB));
    }

    method CompileFor(s: Stmt, ghost lo: nat) returns (ok: bool, ghost l: Layout)
      requires Good(lo) && s.For?
      modifies this
      ensures ok == Accepted(s, old(Surroundings()))
      ensures ok ==> Good(lo) && Context() == old(Context()) && nextReg >= old(nextReg)
      ensures ok ==> Emitted(old(blocks), old(current), blocks, current, {})
      ensures ok ==> Realizes(blocks, Context(), lo, s, l, old(Here()), Here())
      decreases s, 1
    {
      hide Emitted, BodyRealized, Realizes, AllAccepted, ForEntry, HeadEvaluated, TargetsOk, Grows, StepIsZero, Sealed;
      var from, to, step := EvalForHead(s, lo);
      l := LSimple;
      if StepIsZero(s) { return false, l; }
      ghost var g0 := blocks;
      var headB, bodyB, incB, endB := EnterFor(Head(s), to, step);
      ghost var g := blocks;
      l := LFor(headB, bodyB, incB, endB, from, to, step, BodyLayout([], []));
      EntryComplete(old(blocks), g0, g, old(current), lo, s, l, old(Here()), {bodyB, incB, endB});
      ghost var body, g1;
      ok, body, g1 := CompileForLoop(s, headB, bodyB, incB, endB, step, BodyFloor(l));
      if !ok { return; }
      FillBoth(old(blocks), old(current), g, bodyB, incB, endB, g1, blocks);
      current := endB;
      EntryWith(g, lo, s, l, body, old(Here()));
      l := WithBody(l, body);
      ForRealized(g, g1, blocks, Context(), lo, s, l, old(Here()));
    }

    /** The body and the increment block of a FOR. */
    method CompileForLoop(s: Stmt, headB: nat, bodyB: nat, incB: nat, endB: nat, step: Operand, ghost lo: nat)
      returns (ok: bool, ghost body: BodyLayout, ghost g1: seq<Block>)
      requires s.For? && lo <= nextReg && TargetsOk(blocks) && headB < |blocks| && endB < |blocks| && bodyB != incB
      requires bodyB < |blocks| && incB < |blocks| && blocks[bodyB] == blocks[incB] == Block([], None)
      requires returnBb.Some? ==> returnBb.value < |blocks|
      modifies this
      ensures ok == AllAccepted(s.body, old(Surroundings()).(inLoop := true))
      ensures ok ==> TargetsOk(blocks) && Context() == old(Context())
      ensures ok ==> nextReg >= old(nextReg) && |blocks| >= |old(blocks)|
      ensures ok ==> Sealed(old(blocks), bodyB, g1, {}) && Sealed(g1, incB, blocks, {})
      ensures ok ==> BodyRealized(g1, Context().(exit := Some(endB), cont := Some(incB)), lo, s.body, body,
                Start(bodyB))
      ensures ok ==> TermAt(g1, Last(body), Br(incB))
      ensures ok ==> InstrAt(blocks, Start(incB), IAdvance(Head(s), step)) && TermAt(blocks, Next(Start(incB)),
                Br(headB))
      decreases s, 0
    {
      hide BodyRealized, AllAccepted, TargetsOk, Sealed;
      var prevExit, prevContinue := loopExit, loopContinue;
      loopExit, loopContinue := Some(endB), Some(incB);
      g1 := blocks;
      ok, body := CompileBranch(bodyB, s.body, incB, lo);
      if !ok { return; }
      g1 := blocks;
      StillEmpty(old(blocks), bodyB, g1, {}, incB);
      CloseInc(Head(s), step, incB, headB);
      loopExit, loopContinue := prevExit, prevContinue;
    }

    /** from and to are evaluated, from is stored, and only then the step is evaluated, once. */
    method EvalForHead(s: Stmt, ghost lo: nat) returns (from: nat, to: nat, step: Operand)
      requires Good(lo) && s.For?
      modifies `blocks, `nextReg
      ensures Open() && TargetsOk(blocks) && Emitted(old(blocks), current, blocks, current, {})
      ensures |blocks| == |old(blocks)|
      ensures HeadEvaluated(blocks, s, from, to, step, old(Here()), Here())
      ensures old(nextReg) <= from < to < nextReg
      ensures step.Reg? ==> to < step.r < nextReg
    {
      from := FreshReg();
      Emit(ISet(from, s.from));
      to := FreshReg();
      Emit(ISet(to, s.to));
      Emit(IStoreReg(s.x, s.xt, from, s.from.ty));
      if s.stepBy.Some? {
        var r := FreshReg();
        Emit(ISet(r, s.stepBy.value));
        step := Reg(r);
      } else {
        step := Konst(Val(T.BitSize(s.xt), 1));
      }
    }

    /** The blocks of a FOR, and its bound test. */
    method EnterFor(head: ForHead, to: nat, step: Operand) returns (headB: nat, bodyB: nat, incB: nat, endB: nat)
      requires Open() && TargetsOk(blocks)
      modifies `blocks, `current
      ensures TargetsOk(blocks) && headB < |blocks| && bodyB < |blocks| && incB < |blocks| && endB < |blocks|
      ensures bodyB != incB && bodyB != endB && incB != endB
      ensures Sealed(old(blocks), old(current), blocks, {bodyB, incB, endB})
      ensures blocks[bodyB] == blocks[incB] == Block([], None)
      ensures TermAt(blocks, old(Here()), Br(headB))
      ensures TermAt(blocks, Start(headB), CondBr(Bound(head, to, step), bodyB, endB))
    {
      headB := AppendBlock();
      bodyB := AppendBlock();
      incB := AppendBlock();
      endB := AppendBlock();
      Terminate(Br(headB));
      current := headB;
      Terminate(CondBr(Bound(head, to, step), bodyB, endB));
    }

    /** The increment block: advance the control variable and go back to the bound test. */
    method CloseInc(head: ForHead, step: Operand, incB: nat, headB: nat)
      requires incB < |blocks| && blocks[incB] == Block([], None) && headB < |blocks| && TargetsOk(blocks)
      modifies `blocks, `current
      ensures TargetsOk(blocks) && Sealed(old(blocks), incB, blocks, {}) && |blocks| == |old(blocks)|
      ensures InstrAt(blocks, Start(incB), IAdvance(head, step)) && TermAt(blocks, Next(Start(incB)), Br(headB))
    {
      current := incB;
      Emit(IAdvance(head, step));
      Terminate(Br(headB));
    }

    method CompileIf(s: Stmt, ghost lo: nat) returns (ok: bool, ghost l: Layout)
      requires Good(lo) && s.If?
      modifies this
      ensures ok == Accepted(s, old(Surroundings()))
      ensures ok ==> Good(lo) && Context() == old(Context()) && nextReg >= old(nextReg)
      ensures ok ==> Emitted(old(blocks), old(current), blocks, current, {})
      ensures ok ==> Realizes(blocks, Context(), lo, s, l, old(Here()), Here())
      decreases s, 1
    {
      hide Emitted, Sealed, BodyRealized, ChainRealized, Realizes, AllAccepted, TargetsOk, Grows;
      var plain := s.elsifs == [] && s.els.NoElse?;
      var thenB, mergeB, elseB := EnterIf(s.cond, plain);
      ghost var g := blocks;
      l := LSimple;
      ghost var body, arms, els := BodyLayout([], []), [], BodyLayout([], []);
      ok, body := CompileBranch(thenB, s.thenBody, mergeB, lo);
      if !ok { return; }
      ghost var g1 := blocks;
      if plain {
        FillLast(old(blocks), old(current), g, thenB, mergeB, g1);
      } else {
        StillEmpty(g, thenB, g1, {}, elseB);
        ok, arms, els := CompileElse(s, elseB, mergeB, lo);
        if !ok { return; }
        FillBoth(old(blocks), old(current), g, thenB, elseB, mergeB, g1, blocks);
      }
      current := mergeB;
      l := LIf(thenB, elseB, mergeB, body, arms, els);
      GrowsSelf(blocks);
      IfRealized(g, g1, blocks, Context(), lo, s, l, old(Here()));
    }

    /** The blocks of an IF, and its condition; without ELSIF and ELSE, false goes to the join. */
    method EnterIf(cond: Rvalue, plain: bool) returns (thenB: nat, mergeB: nat, elseB: nat)
      requires Open() && TargetsOk(blocks)
      modifies `blocks
      ensures TargetsOk(blocks) && thenB < |blocks| && mergeB < |blocks| && elseB < |blocks| && thenB != mergeB
      ensures blocks[thenB] == blocks[elseB] == Block([], None)
      ensures TermAt(blocks, old(Here()), CondBr(Cond(cond), thenB, elseB))
      ensures plain ==> elseB == mergeB && Sealed(old(blocks), current, blocks, {thenB, mergeB})
      ensures !plain ==> elseB != mergeB && thenB != elseB && Sealed(old(blocks), current, blocks, {thenB, elseB,
                mergeB})
    {
      thenB := AppendBlock();
      mergeB := AppendBlock();
      if plain {
        elseB := mergeB;
        Terminate(CondBr(Cond(cond), thenB, mergeB));
      } else {
        elseB := AppendBlock();
        Terminate(CondBr(Cond(cond), thenB, elseB));
      }
    }

    /** The ELSIF chain and the ELSE, from the block the IF goes to when its condition is false. */
    method CompileElse(s: Stmt, elseB: nat, mergeB: nat, ghost lo: nat) returns (ok: bool, ghost arms: seq<Arm>,
        ghost els: BodyLayout)
      requires s.If? && TargetsOk(blocks) && lo <= nextReg && mergeB < |blocks|
      requires elseB < |blocks| && blocks[elseB] == Block([], None)
      requires (loopExit.Some? ==> loopExit.value < |blocks|) && (loopContinue.Some? ==> loopContinue.value < |blocks|)
      requires returnBb.Some? ==> returnBb.value < |blocks|
      modifies this
      ensures ok == ((forall i :: 0 <= i < |s.elsifs| ==> AllAccepted(s.elsifs[i].body, old(Surroundings()))) &&
                     (s.els.Else? ==> AllAccepted(s.els.body, old(Surroundings()))))
      ensures ok ==> TargetsOk(blocks) && Context() == old(Context())
      ensures ok ==> nextReg >= old(nextReg) && |blocks| >= |old(blocks)|
      ensures ok ==> Sealed(old(blocks), elseB, blocks, {})
      ensures ok ==> forall thenB, body :: ChainRealized(blocks, Context(), lo, s, LIf(thenB, elseB, mergeB, body,
                arms, els))
      decreases s, 0
    {
      hide Emitted, Sealed, BodyRealized, ArmsRealized, AllAccepted, TargetsOk, Grows;
      current := elseB;
      els := BodyLayout([], []);
      ok, arms := CompileElsifs(s.elsifs, mergeB, lo);
      if !ok { return; }
      ghost var g, c := blocks, current;
      if s.els.Else? {
        ok, els := CompileBranch(current, s.els.body, mergeB, lo);
        if !ok { return; }
      } else {
        JoinHere(mergeB);
      }
      EmittedThenSealed(old(blocks), elseB, g, c, blocks);
      ArmsStable(g, blocks, Context(), lo, s.elsifs, elseB, arms, mergeB);
    }

    method CompileElsifs(es: seq<Elsif>, mergeB: nat, ghost lo: nat) returns (ok: bool, ghost arms: seq<Arm>)
      requires Good(lo) && mergeB < |blocks| && blocks[current] == Block([], None)
      modifies this
      ensures ok == forall i :: 0 <= i < |es| ==> AllAccepted(es[i].body, old(Surroundings()))
      ensures ok ==> Good(lo) && Context() == old(Context()) && nextReg >= old(nextReg) && |blocks| >= |old(blocks)|
      ensures ok ==> Emitted(old(blocks), old(current), blocks, current, {}) && blocks[current] == Block([], None)
      ensures ok ==> ArmsRealized(blocks, Context(), lo, es, old(current), arms, mergeB)
      ensures ok ==> |arms| == |es| && Start(current) == ElsePoint(old(current), arms, |es|)
      decreases es, 1
    {
      hide Emitted, ArmRealized, ArmsRealized, AllAccepted, TargetsOk;
      arms := [];
      EmittedSelf(blocks, current);
      ArmsEmpty(blocks, Context(), lo, es, current, mergeB);
      for i := 0 to |es|
        invariant Good(lo) && Context() == old(Context()) && nextReg >= old(nextReg) && |blocks| >= |old(blocks)|
        invariant forall j :: 0 <= j < i ==> AllAccepted(es[j].body, Surroundings())
        invariant Emitted(old(blocks), old(current), blocks, current, {}) && blocks[current] == Block([], None)
        invariant ArmsRealized(blocks, Context(), lo, es[..i], old(current), arms, mergeB)
        invariant |arms| == i && Start(current) == ElsePoint(old(current), arms, i)
      {
        ghost var g, c := blocks, current;
        ghost var arm;
        ok, arm := CompileElsif(es[i], mergeB, lo);
        if !ok { return; }
        ArmsStep(old(blocks), old(current), g, c, blocks, current, Context(), lo, es, i, arms, arm, mergeB);
        arms := arms + [arm];
      }
      assert es[..|es|] == es;
      ok := true;
    }

    /** An empty branch: straight to the join. */
    method JoinHere(join: nat)
      requires Open() && TargetsOk(blocks) && join < |blocks|
      modifies `blocks
      ensures TargetsOk(blocks) && Sealed(old(blocks), current, blocks, {}) && |blocks| == |old(blocks)|
      ensures TermAt(blocks, old(Here()), Br(join))
    {
      BranchToJoin(join);
    }

    /** One ELSIF: its test in the current block, its body, and a fresh block for what follows. */
    method CompileElsif(e: Elsif, mergeB: nat, ghost lo: nat) returns (ok: bool, ghost a: Arm)
      requires Good(lo) && mergeB < |blocks| && blocks[current] == Block([], None)
      modifies this
      ensures ok == AllAccepted(e.body, old(Surroundings()))
      ensures ok ==> Good(lo) && Context() == old(Context()) && nextReg >= old(nextReg) && |blocks| >= |old(blocks)|
      ensures ok ==> Emitted(old(blocks), old(current), blocks, current, {})
      ensures ok ==> blocks[current] == Block([], None) && current == a.elseB
      ensures ok ==> ArmRealized(blocks, Context(), lo, e, a, Start(old(current)), mergeB)
      decreases e, 1
    {
      hide Emitted, Sealed, BodyRealized, AllAccepted, TargetsOk, Grows;
      a := Arm(0, 0, Start(0), BodyLayout([], []));
      var thenB, elseB := EnterElsif(e.cond);
      ghost var g := blocks;
      ghost var body;
      ok, body := CompileBranch(thenB, e.body, mergeB, lo);
      if !ok { return; }
      FillLast(old(blocks), old(current), g, thenB, elseB, blocks);
      TermStable(g, blocks, Start(old(current)), CondBr(Cond(e.cond), thenB, elseB));
      current := elseB;
      a := Arm(thenB, elseB, Start(old(current)), body);
    }

    method EnterElsif(cond: Rvalue) returns (thenB: nat, elseB: nat)
      requires Open() && TargetsOk(blocks)
      modifies `blocks
      ensures TargetsOk(blocks) && thenB < |blocks| && elseB < |blocks| && thenB != elseB
      ensures blocks[thenB] == Block([], None) && |blocks| >= |old(blocks)|
      ensures Sealed(old(blocks), current, blocks, {thenB, elseB})
      ensures TermAt(blocks, old(Here()), CondBr(Cond(cond), thenB, elseB))
    {
      thenB := AppendBlock();
      elseB := AppendBlock();
      Terminate(CondBr(Cond(cond), thenB, elseB));
    }

    method CompileCase(s: Stmt, ghost lo: nat) returns (ok: bool, ghost l: Layout)
      requires Good(lo) && s.Case?
      modifies this
      ensures ok == Accepted(s, old(Surroundings()))
      ensures ok ==> Good(lo) && Context() == old(Context()) && nextReg >= old(nextReg)
      ensures ok ==> Emitted(old(blocks), old(current), blocks, current, {})
      ensures ok ==> Realizes(blocks, Context(), lo, s, l, old(Here()), Here())
      decreases s, 1
    {
      hide Emitted, Sealed, BodyRealized, Realizes, AllAccepted, TargetsOk, Grows, FilledAll, TestsRealized,
          BodiesRealized;
      l := LSimple;
      var sel, endB, elseB := EnterCase(s);
      ghost var g0 := blocks;
      ghost var rest := if s.els.Else? then {elseB, endB} else {endB};
      var thenBs;
      ghost var arms;
      thenBs, arms := CompileTests(s, sel, elseB);
      ghost var g1 := blocks;
      CaseOpened(old(blocks), old(current), g0, g1, rest, Elems(thenBs), old(Here()), ISet(sel, s.selector));
      ghost var bodies, els := [], BodyLayout([], []);
      ok, bodies := CompileBranches(s.branches, thenBs, endB, lo);
      if !ok { return; }
      ghost var g2 := blocks;
      SealedFillAll(old(blocks), old(current), g1, rest, Elems(thenBs), g2);
      if s.els.Else? {
        SealedIsOpen(old(blocks), old(current), g2, rest, elseB);
        ok, els := CompileBranch(elseB, s.els.body, endB, lo);
        if !ok { return; }
        FillLast(old(blocks), old(current), g2, elseB, endB, blocks);
      } else {
        SealedOpen(old(blocks), old(current), g2, endB);
        SealedIsOpen(old(blocks), old(current), g2, rest, endB);
        GrowsSelf(g2);
      }
      current := endB;
      l := LCase(sel, elseB, endB, WithBodies(arms, bodies), els);
      CaseDone(g1, g2, blocks, Context(), lo, s, l, arms, bodies, thenBs, old(Here()));
    }

    /** The selector, evaluated once, and the blocks of the END_CASE and of the ELSE. */
    method EnterCase(s: Stmt) returns (sel: nat, endB: nat, elseB: nat)
      requires Open() && TargetsOk(blocks) && s.Case?
      modifies `blocks, `nextReg
      ensures Open() && TargetsOk(blocks) && sel == old(nextReg) && nextReg == sel + 1
      ensures |old(blocks)| <= endB < |blocks| && |old(blocks)| <= elseB < |blocks|
      ensures InstrAt(blocks, old(Here()), ISet(sel, s.selector)) && Here() == Next(old(Here()))
      ensures s.els.NoElse? ==> elseB == endB && Emitted(old(blocks), current, blocks, current, {endB})
      ensures s.els.Else? ==> elseB != endB && Emitted(old(blocks), current, blocks, current, {elseB, endB})
    {
      sel := FreshReg();
      Emit(ISet(sel, s.selector));
      endB := AppendBlock();
      if s.els.Else? { elseB := AppendBlock(); } else { elseB := endB; }
    }

    /** The tests, branch by branch, each with a block for its body. */
    method CompileTests(s: Stmt, sel: nat, elseB: nat) returns (thenBs: seq<nat>, ghost arms: seq<Arm>)
      requires Open() && TargetsOk(blocks) && s.Case? && elseB < |blocks|
      modifies `blocks, `current
      ensures TargetsOk(blocks) && |blocks| >= |old(blocks)|
      ensures Sealed(old(blocks), old(current), blocks, Elems(thenBs))
      ensures forall i :: 0 <= i < |thenBs| ==> thenBs[i] < |blocks| && blocks[thenBs[i]] == Block([], None)
      ensures Distinct(thenBs)
      ensures TestsRealized(blocks, s, sel, |s.branches|, arms, thenBs, old(Here()))
      ensures |arms| == |thenBs| == |s.branches|
      ensures if arms == [] then TermAt(blocks, old(Here()), Br(elseB)) else arms[|arms| - 1].elseB == elseB
    {
      thenBs, arms := [], [];
      var n := |s.branches|;
      hide Emitted, Sealed, Testing, TestsRealized, TestRealized, TargetsOk, Grows, Distinct, TermAt;
      NoTests(blocks, current, s, sel, Here());
      for i := 0 to n
        invariant current < |blocks| && TargetsOk(blocks) && |blocks| >= |old(blocks)|
        invariant i < n || n == 0 ==> Open()
        invariant Testing(old(blocks), old(current), blocks, current, Elems(thenBs), 0 < i == n)
        invariant TestsRealized(blocks, s, sel, i, arms, thenBs, old(Here()))
        invariant |arms| == i
        invariant n == 0 ==> blocks == old(blocks) && current == old(current)
        invariant i < n || n == 0 ==> Here() == if i == 0 then old(Here()) else Start(arms[i - 1].elseB)
        invariant Distinct(thenBs)
        invariant 0 < i == n ==> arms[i - 1].elseB == elseB
      {
        ghost var g, c, p := blocks, current, Here();
        var thenB, next := CompileTest(s.branches[i].labels, sel, s.selector.ty, i + 1 == n, elseB);
        ghost var arm := Arm(thenB, next, p, BodyLayout([], []));
        TestingStep(old(blocks), old(current), g, c, thenBs, blocks, current, thenB, i + 1 == n);
        TestShape(blocks, s, sel, i, arm);
        TestsStep(g, blocks, s, sel, i, arms, thenBs, old(Here()), arm);
        DistinctSnoc(thenBs, thenB);
        arms := arms + [arm];
        thenBs := thenBs + [thenB];
      }
      if n == 0 {
        JoinHere(elseB);
        TestsCount(old(blocks), s, sel, n, arms, thenBs, old(Here()));
        NoTestsAfter(blocks, s, sel, old(Here()));
        assert Elems([]) == {};
      } else {
        TestsCount(blocks, s, sel, n, arms, thenBs, old(Here()));
        TestingDone(old(blocks), old(current), blocks, current, Elems(thenBs));
      }
      SealedOpens(old(blocks), old(current), blocks, thenBs);
    }

    /** One test: `next` is the ELSE for the last branch, else the block of the following test. */
    method CompileTest(labels: seq<Label>, sel: nat, ty: Option<T.IntTy>, last: bool,
        elseB: nat) returns (thenB: nat, next: nat)
      requires Open() && TargetsOk(blocks) && elseB < |blocks|
      modifies `blocks, `current
      ensures current < |blocks| && TargetsOk(blocks) && |blocks| >= |old(blocks)|
      ensures Testing(old(blocks), old(current), blocks, current, {thenB}, last)
      ensures last ==> next == elseB
      ensures !last ==> current == next && blocks[current] == Block([], None)
      ensures labels == [] ==> TermAt(blocks, old(Here()), Br(next))
      ensures labels != [] ==> TermAt(blocks, old(Here()), CondBr(Labels(labels, sel, ty), thenB, next))
    {
      thenB := AppendBlock();
      if last { next := elseB; } else { next := AppendBlock(); }
      if labels == [] { Terminate(Br(next)); } else { Terminate(CondBr(Labels(labels, sel, ty), thenB, next)); }
      if !last { current := next; }
    }

    /** The bodies of the branches, each joining at the END_CASE. */
    method CompileBranches(bs: seq<Branch>, thenBs: seq<nat>, endB: nat, ghost lo: nat) returns (ok: bool,
        ghost bodies: seq<BodyLayout>)
      requires |thenBs| == |bs| && endB < |blocks| && TargetsOk(blocks) && lo <= nextReg
      requires forall i :: 0 <= i < |thenBs| ==> thenBs[i] < |blocks| && blocks[thenBs[i]] == Block([], None)
      requires Distinct(thenBs)
      requires (loopExit.Some? ==> loopExit.value < |blocks|) && (loopContinue.Some? ==> loopContinue.value < |blocks|)
      requires returnBb.Some? ==> returnBb.value < |blocks|
      modifies this
      ensures ok == forall i :: 0 <= i < |bs| ==> AllAccepted(bs[i].body, old(Surroundings()))
      ensures ok ==> TargetsOk(blocks) && Context() == old(Context())
      ensures ok ==> nextReg >= old(nextReg) && |blocks| >= |old(blocks)|
      ensures ok ==> FilledAll(old(blocks), blocks, Elems(thenBs))
      ensures ok ==> BodiesRealized(blocks, Context(), lo, bs, |bs|, bodies, thenBs, endB) && |bodies| == |bs|
      decreases bs, 2
    {
      bodies := [];
      hide Sealed, FilledAll, AllAccepted, BodyRealized, BodiesRealized, TargetsOk, Grows;
      FilledNone(blocks, thenBs);
      BodiesNone(blocks, Context(), lo, bs, thenBs, endB);
      for i := 0 to |bs|
        invariant TargetsOk(blocks) && Context() == old(Context())
        invariant nextReg >= old(nextReg) && |blocks| >= |old(blocks)|
        invariant forall j :: 0 <= j < i ==> AllAccepted(bs[j].body, Surroundings())
        invariant FilledAll(old(blocks), blocks, Elems(thenBs[..i]))
        invariant BodiesRealized(blocks, Context(), lo, bs, i, bodies, thenBs, endB)
      {
        ghost var g := blocks;
        ghost var body;
        FilledNotYet(old(blocks), blocks, thenBs, i);
        ok, body := CompileBranch(thenBs[i], bs[i].body, endB, lo);
        if !ok { return; }
        FilledAllStep(old(blocks), g, thenBs, i, blocks);
        BodiesStable(g, blocks, Context(), lo, bs, i, bodies, thenBs, endB);
        BodiesStep(blocks, Context(), lo, bs, i, bodies, body, thenBs, endB);
        bodies := bodies + [body];
      }
      assert thenBs[..|bs|] == thenBs;
      BodiesCount(blocks, Context(), lo, bs, bodies, thenBs, endB);
      ok := true;
    }

    // ----- a whole POU -----------------------------------------------------

    /** A body with one exit block that RETURN can branch to. The targets are put back whether or not
        the body was accepted; on success every block that was open or is new ends in one terminator
        to a block of the function, except the exit block the builder is left in. */
    method CompilePouBody(body: seq<Stmt>, rv: ResultVar) returns (ok: bool, ghost l: BodyLayout)
      requires Open() && TargetsOk(blocks)
      modifies this
      ensures ok == AllAccepted(body, Scope(false, true, rv.Some?))
      ensures Context() == old(Context())
      ensures ok ==> TargetsOk(blocks) && Emitted(old(blocks), old(current), blocks, current, {})
      ensures ok ==> current == |old(blocks)|
      ensures ok ==> PouRealized(blocks, old(Here()), current, rv, body, 0, l)
    {
      hide BodyRealized, AllAccepted, Emitted;
      var exit := AppendBlock();
      ghost var g0, c, p := blocks, current, Here();
      var saved := (returnBb, resultVar, loopExit, loopContinue);
      returnBb, resultVar, loopExit, loopContinue := Some(exit), rv, None, None;
      ok, l := CompileBody(body, 0);
      returnBb, resultVar, loopExit, loopContinue := saved.0, saved.1, saved.2, saved.3;
      if !ok { return; }
      ghost var g := blocks;
      hide PouRealized, TargetsOk, Sealed;
      JoinHere(exit);
      PouDone(old(blocks), g0, c, g, current, blocks, exit, rv, body, l, p);
      current := exit;
    }
  }

  lemma PouDone(before: seq<Block>, g0: seq<Block>, c: nat, g: seq<Block>, c': nat, g': seq<Block>, exit: nat,
      rv: ResultVar, body: seq<Stmt>, l: BodyLayout, p: Point)
    requires exit == |before| && g0 == before + [Block([], None)] && c < |before|
    requires Emitted(g0, c, g, c', {}) && Sealed(g, c', g', {}) && |g'| == |g|
    requires BodyRealized(g, BodyCtx(exit, rv), 0, body, l, p) && TermAt(g', Last(l), Br(exit))
    requires before[c].term.None?
    ensures exit < |g'| && Emitted(before, c, g', exit, {}) && PouRealized(g', p, exit, rv, body, 0, l)
  {
    SealedGrows(g, c', g', {});
    BodyStable(g, g', BodyCtx(exit, rv), 0, body, l, p);
    hide BodyRealized;
  }
}

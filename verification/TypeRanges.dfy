/** The integer types by their ranges, and what promotion and the reported type make of two of them. */
module TypeRanges {
  import opened IntTyping
  import opened MachineInts
  import opened Wrappers

  /** The values of each type, those of the bit strings read as unsigned numbers. */
  lemma TypeRange(t: IntTy, v: int)
    ensures InType(v, t) <==>
            match t
            case Sint => -128 <= v <= 127
            case Int => -32768 <= v <= 32767
            case Dint => -2147483648 <= v <= 2147483647
            case Lint => -9223372036854775808 <= v <= 9223372036854775807
            case Byte | Usint => 0 <= v <= 255
            case Word | Uint => 0 <= v <= 65535
            case Dword | Udint => 0 <= v <= 4294967295
            case Lword | Ulint => 0 <= v <= 18446744073709551615
  {
  }

  /** A literal has the narrowest of 16, 32 and 64 bits that holds it as a signed value, and 64 bits if none
      does; beyond 64 bits there is no literal. */
  lemma LiteralWidth(v: int)
    ensures IntLiteral(v).Computed? <==> -9223372036854775808 <= v <= 18446744073709551615
    ensures IntLiteral(v).Computed? ==>
              IntLiteral(v).v.w == (if -32768 <= v <= 32767 then 16
                                    else if -2147483648 <= v <= 2147483647 then 32 else 64)
  {
  }

  /** An operand of this width keeps all its values in an operation at width p. */
  predicate Kept(unsignedOperand: bool, w: Width, p: Width, unsigned: bool) {
    if unsigned then unsignedOperand && w <= p
    else if unsignedOperand then w < p
    else w <= p
  }

  function Sign(unsignedOperand: bool): Signedness { if unsignedOperand then Unsigned else Signed }

  /** Main result: an operator runs unsigned exactly when both operands are, and at the least width that keeps
      the values of both; unless an unsigned operand of 64 bits meets a signed one, where there is none and it
      runs unsigned at 64 bits. */
  lemma PromotionLeast(lw: Width, lu: bool, rw: Width, ru: bool, q: Width)
    ensures var (p, unsigned) := PromoteIntOperands(lw, Sign(lu), rw, Sign(ru));
            if (lu && !ru && lw == 64) || (!lu && ru && rw == 64) then
              p == 64 && unsigned && !(Kept(lu, lw, q, false) && Kept(ru, rw, q, false))
            else
              && (unsigned <==> lu && ru)
              && Kept(lu, lw, p, unsigned) && Kept(ru, rw, p, unsigned)
              && (Kept(lu, lw, q, unsigned) && Kept(ru, rw, q, unsigned) ==> p <= q)
  {
  }

  /** The type holds every value of the other. */
  ghost predicate Covers(t: IntTy, of: IntTy) { forall v :: InType(v, of) ==> InType(v, t) }

  predicate MixedAtMost(lt: IntTy, rt: IntTy) {
    WidensUnsigned(lt) != WidensUnsigned(rt) && BitSize(if WidensUnsigned(lt) then lt else rt) == 64
  }

  /** Main result: the type an operator's result is reported as holds the values of both operand types, unless
      one of them is unsigned with 64 bits and the other is signed. */
  lemma ResultCovers(lt: IntTy, rt: IntTy)
    ensures Covers(ArithResultType(lt, rt), lt) && Covers(ArithResultType(lt, rt), rt) <==> !MixedAtMost(lt, rt)
  {
    if MixedAtMost(lt, rt) { NothingCovers(ArithResultType(lt, rt), lt, rt); }
  }

  lemma NothingCovers(t: IntTy, lt: IntTy, rt: IntTy)
    requires MixedAtMost(lt, rt)
    ensures !(Covers(t, lt) && Covers(t, rt))
  {
    if Covers(t, lt) && Covers(t, rt) {
      assert InType(-1, if WidensUnsigned(lt) then rt else lt);
      assert InType(18446744073709551615, if WidensUnsigned(lt) then lt else rt);
    }
  }
}

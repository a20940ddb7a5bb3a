# plcc, modelled and proved

plcc compiles IEC 61131-3 Structured Text to LLVM and runs the result in a cyclic scan. This project
models the parts of it where the branching, the mutable state and the modular arithmetic are, and proves
what they are for. `dafny verify dfyconfig.toml` checks all of it.

- **Machine integers and integer typing** (`MachineInts`, `MixedSign`, `IntTyping`, `TypeRanges`,
  `ShiftRotate`). A value
  is a width and a bit pattern without a sign. The operator picks a width and a signedness from LLVM
  widths; the type a node is reported as is computed separately, from IEC sizes. Both are modelled, and
  the bits, read with the reported type, are compared with the mathematical value: where the signednesses
  mix, with the exact condition for each operator and comparison.
- **Control flow** (`Statements`, `Fuel`, `Lowering`, `Codegen`, `Decisions`, `Legality`, `ForCount`,
  `ForOrbits`, `ForLimits`, `Lowered`). A structured semantics with a bound on how often loops go round, a machine that runs basic blocks, a
  relation that says where a statement's code lies in a graph, and a class `Compiler` that moves the
  builder as the code generator does. The class puts code there (`CompileStatement`); code that lies there
  behaves like the statement (`LoweringCorrect`). `Decisions` says on mathematical values what IF, CASE and
  the loops decide, and `Legality` which bodies are accepted. `ForCount`, `ForOrbits` and `ForLimits` say which values a
  FOR runs through and whether it ends; `Lowered` carries this, and the integer results, over to the blocks.
- **Types, constants, arrays, dates, strings** (`TypeResolution`, `TypeLayouts`, `TypeShapes`,
  `SubrangeBases`, `Consts`, `ConstValues`, `ConstScopes`, `ArrayIndex`, `Calendar`, `StringRoutines`). Two fixed points over declarations, clamped
  row-major indexing, `days_from_civil`, and the emitted string loops.
- **Run time** (`TaskPlan`, `ScanCycle`, `ScanLaws`, `ScanSteps`, `Retain`, `RetainFormat`). One scan's decision for one task with a
  history of all of them, the cycle that takes these decisions and latches faults, and RETAIN snapshots.
- **Modbus RTU** (`Crc16`, `CrcErrors`, `CrcPeriod`, `Modbus`, `ModbusNumbers`, `ModbusLaws`,
  `ModbusServed`) after the MODBUS Application Protocol
  V1.1b3, sections 6.1, 6.3, 6.6 and 6.12, and MODBUS over Serial Line V1.02, section 2.5.1.2.
- **Templates** (`TemplateExpr`, `TemplateLaws`, `TemplateText`, `TemplateGrammar`,
  `TemplateErrors`, `TemplateReads`). The lexer, the parser, the expansion,
  and a printer they are inverse to.

Where the source works step by step the model is a method or a class, proved equal to a function of its
inputs or its old state; the promises are lemmas about that function.

Where the code does not do what its documentation or a reader would expect, the model follows the code, a
lemma says for all inputs exactly when it does, and `Failures` has a concrete input for which it does not:

- A signed operand against an unsigned one that is already 64 bits wide, and an operand without a type
  against an unsigned one, meet in an unsigned operation, which takes a negative value for a large one. A
  comparison is then right only on `ComparisonRight` (`ComparisonExact`; over all values of the other side
  `MixedAt64` and `NegativeUntyped`), `/` and MOD only on `OperatorRight` (`OperatorExact`). `+`, `-` and
  `*` are right all the same, unless the operands are narrower than the 32 bits of the result
  (`MinusOneIsLargest`, `FiveBelowMinusOne`, `NegativeQuotient`).
- The increment of a FOR wraps at the control variable's type. The loop visits the counted values only if the
  value after them, wrapped, stops it: `ForCountCorrect` (`TensGoOn`). Any other loop goes on through the
  wrapped values up to the first that the bound test does not admit, and never ends if there is none:
  `ForVisits`, `RoundsEndIff`, `StopsSomewhere`. Without BY that is so if the bound is the largest value of the
  type or lies beyond it: `DefaultStepEnds`, `UnitStops` (`ByteLoopNeverEnds`, `BoundBeyondType`). A signed
  variable and an unsigned 64-bit bound meet in an unsigned test, where a negative value is above every bound.
- A subrange of a name that is not registered yet, because it is declared further down or not at all,
  silently becomes a subrange of INT, also inside a STRUCT or an ARRAY. So a unit can resolve although a name
  is missing, exactly as `SucceedsIffDropped` says; its layouts are the declared ones exactly as
  `DeclaredLayouts` says; and the order of the declarations matters exactly as `OrderMatters` says
  (`UndeclaredBaseResolves`, `OrderOfFieldMatters`).
- `RIGHT` computes `LEN - n` at 32 bits, so counts near the least DINT give the whole string instead of
  none of it: `RightExact` (`RightOfLeast`). `REPLACE` does the same to the position: `PositionExact`
  (`ReplaceAtLeast`).
- `MID` starts to read outside the string unless its position is in 1..LEN + 1: `MidWithin` (`MidOutside`).
  `REPLACE` reads what follows the replaced characters from before the string if position and length do not add
  up in 32 bits, although its comment says that nothing reads beyond the terminator: `TailWithin`
  (`TailOutside`).
- The template evaluator panics on `MIN / -1` and `MIN % -1` instead of reporting an overflow:
  `ValueIsExact` (`MinByMinusOnePanics`). It refuses the literal 9223372036854775808 also behind a minus:
  `TooLargeIff` (`LeastLiteralRefused`).
- A region of 2^32 bytes or more is stored in a RETAIN snapshot with a truncated size and can then not be
  restored: `OwnSnapshotAccepted` (`HugeRegionLost`).
- A POU's constant that needs another POU's constant for its value has that value inside its POU, but
  `POU.NAME` is not defined outside: `OnlyInside` (`OnlyInsideA`).
- A local constant that has the name of a global one keeps the global one's value, since `add_constants`
  never overwrites an entry of the table it extends: `ShadowingIff` (`ShadowedKeepsOuter`).

## Model

| member | source | states |
|---|---|---|
| IntTyping.ExpressionExact | crates/plcc-codegen/src/compiler.rs:8378-8499 | for every tree of + - * / MOD and unary minus whose intermediate results fit and whose operators are right about mixed operands, the code faults exactly on a zero divisor and otherwise its bits, read with the reported type, are the mathematical value |
| IntTyping.OperatorExact | crates/plcc-codegen/src/compiler.rs:8378-8499 | one operator on operands of any types and widths: a fault exactly on a zero divisor, and a result that fits is computed if and only if OperatorRight holds, which for + - * fails only below 32 bits |
| IntTyping.ComparisonExact | crates/plcc-codegen/src/compiler.rs:8378-8499 | each of the six comparisons, of operands of any types and widths, answers mathematically if and only if ComparisonRight holds, which for operands that are not negative it always does |
| IntTyping.ConditionExact | crates/plcc-codegen/src/compiler.rs:8378-8499 | the same for the comparison of two expression trees, with their mathematical values |
| IntTyping.SignednessAgrees | crates/plcc-codegen/src/compiler.rs:3753-3904 | the signedness the operator runs at is that of the type reported for its result, unless the signednesses mix at 64 bits; then if and only if the unsigned type has 64 bits and is on the left or wider than the signed one |
| IntTyping.WidthCovers | crates/plcc-codegen/src/compiler.rs:7096-7142 | the width a node is computed at is never below the size of the type it is reported as |
| IntTyping.WidthsMatch | crates/plcc-codegen/src/compiler.rs:3753-3783 | promotion never narrows an operand |
| IntTyping.WidenKeepsValue | crates/plcc-codegen/src/compiler.rs:3853-3868 | widening by an operand's own signedness keeps its value |
| IntTyping.ArithExact | crates/plcc-codegen/src/compiler.rs:8378-8499 | one operator at one width: right whenever its result fits, a fault exactly on a zero divisor |
| IntTyping.MixedAt64 | crates/plcc-codegen/src/compiler.rs:3767-3783 | against an unsigned operand of 64 bits, on either side, a signed one is compared rightly with all its values, by any of the six comparisons, if and only if it is not negative |
| IntTyping.NegativeUntyped | crates/plcc-codegen/src/compiler.rs:3716-3783 | the same for an operand without a type, at every width of the unsigned one, except that = and <> are right about a wider negative one too |
| IntTyping.CoerceExact | crates/plcc-codegen/src/compiler.rs:3915-3947 | storing a value that fits the destination's type stores that value, whatever the widths and signedness on the two sides |
| IntTyping.AssignmentExact | crates/plcc-codegen/src/compiler.rs:5832-5900 | an assignment leaves the mathematical value of its expression in the variable whenever the variable can hold it |
| Lowered.AssignmentRuns | crates/plcc-codegen/src/compiler.rs:5832-5900 | the blocks of a POU whose body is one assignment reach the exit with that value in the variable |
| TypeRanges.TypeRange | crates/plcc-hir/src/types.rs:166-174 | the range of each integer and bit-string type |
| TypeRanges.LiteralWidth | crates/plcc-codegen/src/compiler.rs:4865-4884 | a literal has the narrowest of 16, 32 and 64 bits that holds it |
| TypeRanges.PromotionLeast | crates/plcc-codegen/src/compiler.rs:3753-3783 | two operands with types meet at the least width that keeps the values of both, unsigned if and only if both are; an unsigned one of 64 bits and a signed one, for which there is none, unsigned at 64 bits |
| TypeRanges.ResultCovers | crates/plcc-codegen/src/compiler.rs:3877-3904 | the type reported for a result holds the values of both operand types if and only if these are not a signed one and an unsigned one of 64 bits |
| ShiftRotate.DivisionLaw | crates/plcc-codegen/src/compiler.rs:8522-8587 | for every width and nonzero divisor, signed or not and MIN / -1 included, quotient times divisor plus MOD is the dividend modulo 2^w |
| ShiftRotate.RemainderBound | crates/plcc-codegen/src/compiler.rs:8522-8587 | a signed MOD is smaller than the divisor and has the dividend's sign |
| ShiftRotate.ShiftCorrect | crates/plcc-codegen/src/compiler.rs:708-754 | SHL and SHR by any count of any width and sign multiply and divide by 2^n on the width of IN, and give 0 for a negative count |
| ShiftRotate.CountModWidth | crates/plcc-codegen/src/compiler.rs:652-700 | narrowing or widening a rotate's count keeps it modulo the width of IN |
| ShiftRotate.RotateCorrect | crates/plcc-codegen/src/compiler.rs:1158-1217 | ROL moves bit j of IN to bit (j + count) modulo the width of IN, for any count of any width and sign, and ROR by the same count undoes it |
| Lowering.LoweringCorrect | crates/plcc-codegen/src/compiler.rs:4755-4779 | running the blocks of a body from its entry reaches the exit block with a store if and only if the structured semantics finishes with that store |
| Lowering.DivergesTogether | crates/plcc-codegen/src/compiler.rs:4755-4779 | the blocks run for ever if and only if the structured semantics does |
| Codegen.Compiler.CompilePouBody | crates/plcc-codegen/src/compiler.rs:4755-4779 | accepts exactly the legal bodies; then the graph realizes the body, every new block but pou_exit has one terminator with a target inside the function, and the EXIT, CONTINUE and RETURN targets are what they were |
| Codegen.Compiler.CompileStatement | crates/plcc-codegen/src/compiler.rs:5832-6072 | starts and ends in a block without terminator, touches no other earlier block, closes every block it opened, restores the targets, and realizes the statement between its two ends |
| Codegen.Compiler.CompileBody | crates/plcc-codegen/src/compiler.rs:5832-6072 | the same for a list of statements, one behind the other |
| Codegen.Compiler.BranchToJoin | crates/plcc-codegen/src/compiler.rs:4832-4846 | ends the current block in a branch unless it has ended already |
| Codegen.Compiler.CompileReturn | crates/plcc-codegen/src/compiler.rs:4788-4823 | accepts a RETURN inside a POU only, and one with a value only where there is a result variable; code after it lands in a block of its own |
| Codegen.Compiler.Leave | crates/plcc-codegen/src/compiler.rs:6041-6068 | EXIT and CONTINUE branch to the innermost loop's target and open a block for what follows |
| Codegen.Compiler.CompileIf | crates/plcc-codegen/src/compiler.rs:6496-6577 | realizes IF with any number of ELSIFs and an optional ELSE |
| Codegen.Compiler.CompileFor | crates/plcc-codegen/src/compiler.rs:6579-6793 | realizes FOR: from and to once, then BY once, the bound test before every iteration, CONTINUE to the increment; refuses a literal step of 0 |
| Codegen.Compiler.CompileWhile | crates/plcc-codegen/src/compiler.rs:6794-6836 | realizes WHILE |
| Codegen.Compiler.CompileRepeat | crates/plcc-codegen/src/compiler.rs:6837-6883 | realizes REPEAT, CONTINUE going to the UNTIL test |
| Codegen.Compiler.CompileCase | crates/plcc-codegen/src/compiler.rs:6884-7001 | realizes CASE: the selector once, the first branch with a matching label or range wins |
| Decisions.ConditionMeant | crates/plcc-codegen/src/compiler.rs:4849-4863 | a condition holds if and only if it is not 0, and a comparison that is right about its operands if and only if it holds mathematically |
| Decisions.IfDecides | crates/plcc-codegen/src/compiler.rs:6496-6577 | IF runs the first of its arms, ELSIFs included, whose condition is met by the mathematical values, else the ELSE |
| Decisions.LabelExact | crates/plcc-codegen/src/compiler.rs:6934-6948 | a CASE label is hit exactly by the selector values it contains: its own, or those from the lower end of its range to the upper, ends included |
| Decisions.CaseDecides | crates/plcc-codegen/src/compiler.rs:6884-7001 | CASE runs the first branch with a label that contains the mathematical value of the selector, else the ELSE |
| Decisions.WhileRound | crates/plcc-codegen/src/compiler.rs:6794-6836 | WHILE makes a round if and only if its condition is met; CONTINUE goes on to the next test, EXIT ends the loop, RETURN the POU |
| Decisions.WhileRule | crates/plcc-codegen/src/compiler.rs:6794-6836 | what every round of a WHILE keeps holds at its end, where the condition is not met, unless it was left by EXIT |
| Decisions.RepeatRound | crates/plcc-codegen/src/compiler.rs:6837-6883 | REPEAT ends after a round, CONTINUE included, if and only if its condition is met |
| Decisions.RepeatRule | crates/plcc-codegen/src/compiler.rs:6837-6883 | what every round of a REPEAT keeps holds at its end, where the condition is met, unless it was left by EXIT |
| Legality.AcceptedIff | crates/plcc-codegen/src/compiler.rs:5832-6072 | a body is accepted if and only if every EXIT and CONTINUE in it is in a loop, every RETURN in a POU and with a value only where there is a result, and no literal step is 0 but an unsigned one |
| Legality.BodyStays | crates/plcc-codegen/src/compiler.rs:6041-6068 | an accepted body never asks for a loop to be left that is not around it, and returns only inside a POU |
| ForCount.ForCountCorrect | crates/plcc-codegen/src/compiler.rs:6614-6786 | a loop that ends, with from and to representable and a body that in its rounds neither writes the variable nor leaves, visits exactly from, from + step, ... up or down to the bound, max(0, (to - from) / step + 1) values, literal or run-time step, if and only if the value after them, wrapped to the variable's type, stops the loop (and no negative value starts it against an unsigned 64-bit bound); and the variable ends at that value |
| ForCount.RightWhenRepresentable | crates/plcc-codegen/src/compiler.rs:6757-6786 | so it is whenever to + step is representable, and for an unsigned 64-bit bound neither it nor from is negative |
| ForOrbits.ForVisits | crates/plcc-codegen/src/compiler.rs:6614-6786 | a loop that ends, with any bound and step and from representable, visits exactly the values from, from + step, ..., wrapped to the variable's type, before the first one that the bound test does not admit, and leaves the variable at that one |
| ForOrbits.RoundsEndIff | crates/plcc-codegen/src/compiler.rs:6614-6786 | a loop whose body in its rounds neither writes the variable nor leaves, with any bound and step, ends if and only if some such value is not admitted and the body finishes in each round before the first of them |
| ForOrbits.ForEndsIff | crates/plcc-codegen/src/compiler.rs:6614-6786 | the same for the FOR statement, its bound and step taken from the store |
| ForOrbits.StopsSomewhere | crates/plcc-codegen/src/compiler.rs:6614-6786 | there is such a value if and only if from + k step, wrapped, is not admitted for some k |
| ForOrbits.ForEnds | crates/plcc-codegen/src/compiler.rs:6614-6786 | on the condition of ForCountCorrect such a loop ends if and only if its body finishes in each of the counted rounds |
| Lowered.ForBlocksCount | crates/plcc-codegen/src/compiler.rs:6614-6786 | the blocks of a loop that ends make one round each, body and increment, for exactly the values it visits, in order, and for no other list, and go on behind the loop; so they do for the counted values if and only if the condition of ForCountCorrect holds |
| Lowered.PassesOnce | crates/plcc-codegen/src/compiler.rs:6614-6786 | one run of the blocks makes its rounds for one list of values only |
| ForCount.BoundExact | crates/plcc-codegen/src/compiler.rs:6699-6744 | the bound test compares mathematically, in the direction of the step, unless the variable is negative against an unsigned 64-bit bound |
| ForCount.AdvanceExact | crates/plcc-codegen/src/compiler.rs:6757-6786 | the increment adds the step whenever the sum is representable |
| ForLimits.UnitStops | crates/plcc-codegen/src/compiler.rs:6757-6786 | with step 1 and any bound a loop comes to a value that stops it if and only if the bound, as the bound test takes it, is below the largest value of the variable, as the test takes that |
| ForLimits.DefaultStepEnds | crates/plcc-codegen/src/compiler.rs:6757-6786 | a loop without BY, with a bound its variable can hold and a body that in its rounds neither writes the variable nor leaves, ends if and only if the body finishes in each round and the bound is not the largest value of the variable's type, or the variable is signed and the bound unsigned with 64 bits |
| TypeResolution.TypeTable.RegisterTypeDeclarations | crates/plcc-codegen/src/compiler.rs:3017-3080 | at most one round per declaration, with the registry or the error that the rounds come to |
| TypeResolution.TypeTable.RunPass | crates/plcc-codegen/src/compiler.rs:3049-3066 | one round: every pending type is registered, the incomplete ones stay pending |
| TypeLayouts.DuplicateIff | crates/plcc-codegen/src/compiler.rs:3031-3039 | a unit is refused as having duplicates exactly when two names are equal but for case, and the pair reported is such a pair |
| TypeLayouts.ResolvesLayouts | crates/plcc-codegen/src/compiler.rs:3017-3101 | on success every type has its layout, every name in it replaced, the unit taken as the rounds take it: a subrange of a name its declaration does not find is one of INT; on failure the type reported leads along layout dependencies to an undeclared name, an ARRAY[*], or round in a circle |
| TypeLayouts.SucceedsIffUnblocked | crates/plcc-codegen/src/compiler.rs:3017-3101 | resolution succeeds if and only if no declared type, so taken, leads to such a place |
| TypeLayouts.SettledIff | crates/plcc-codegen/src/compiler.rs:3049-3066 | which declarations the first round completes, told from the declarations alone: those that decide with which names a declaration is taken |
| TypeShapes.ResolvedShaped | crates/plcc-hir/src/check.rs:1178-1282 | in a unit that resolves, every declaration has the bounds, fields, values, base types, lengths and elementary names it is written with, at any depth |
| TypeShapes.ArrayBounds | crates/plcc-hir/src/check.rs:1197-1211 | an ARRAY has the bounds it is declared with; a lower bound that is not known is 0, and an upper one that is not known or too small leaves one element |
| TypeShapes.ResolvedRanged | crates/plcc-hir/src/check.rs:1197-1211 | no array in a registered type, at any depth, has a dimension without elements |
| TypeShapes.FoldedAlike | crates/plcc-hir/src/types.rs:321-325 | two names are one if and only if they are the same but for the case of their letters |
| SubrangeBases.SucceedsIffDropped | crates/plcc-codegen/src/compiler.rs:3017-3101 | resolution succeeds if and only if every chain of dependencies, as the unit is written, that leads a declared type to such a place passes a subrange base that was taken for INT |
| SubrangeBases.DeclaredLayouts | crates/plcc-codegen/src/compiler.rs:3017-3101 | a unit that resolves has the layouts as it is written if and only if every base taken for INT is declared with the layout of an INT |
| SubrangeBases.OrderIrrelevant | crates/plcc-codegen/src/compiler.rs:3017-3101 | success and all layouts, apart from what lies behind pointers, are the same for every order in which the declarations are taken alike |
| SubrangeBases.BackwardAlike | crates/plcc-codegen/src/compiler.rs:3017-3101 | such are all orders in which subranges of declared types refer backwards |
| SubrangeBases.OrderMatters | crates/plcc-codegen/src/compiler.rs:3017-3101 | two orders that resolve give the same layouts if and only if each base that only one of them takes for INT has the layout of an INT in the other |
| SubrangeBases.EarlySubrange | crates/plcc-hir/src/check.rs:1220-1229 | a TYPE that is a subrange of a name not registered before it is a subrange of INT, hence right exactly when that name is declared with the layout of an INT |
| TypeLayouts.ResolveExpands | crates/plcc-hir/src/check.rs:1178-1282 | a type that comes out complete has the layout of its specification, taken with the names registered by then |
| TypeLayouts.UnresolvedNeeds | crates/plcc-codegen/src/compiler.rs:3088-3101 | a type stays incomplete only because of an ARRAY[*] or a name in its layout, so taken, that is pending or unknown |
| TypeLayouts.CompleteIff | crates/plcc-codegen/src/compiler.rs:3088-3101 | a type comes out complete if and only if it has no ARRAY[*] and all that its layout, so taken, needs is registered complete |
| Consts.AddConstants | crates/plcc-hir/src/consts.rs:54-73 | ends, in the least table that extends the given one and gives every constant that can be evaluated its value; every new entry is the value of its own initializer under the final table |
| Consts.AddBlock | crates/plcc-hir/src/consts.rs:57-68 | one pass over a block only adds entries that every solution has, and reports whether it added any |
| Consts.EvalMonotone | crates/plcc-hir/src/consts.rs:19-50 | a value computed from a table stays the same in every larger table |
| Consts.UndefinedIffBlocked | crates/plcc-hir/src/consts.rs:54-73 | a name has no value if and only if its dependencies lead to an undeclared name, to an initializer that has all it needs and does not evaluate, or round in a circle |
| Consts.OrderIrrelevant | crates/plcc-hir/src/consts.rs:54-73 | the table does not depend on the order of declarations or blocks |
| ConstValues.EvalIsExact | crates/plcc-hir/src/consts.rs:19-50 | an initializer evaluates if and only if its names are known, no divisor is 0 and every result on the way fits 128 bits, and then to its mathematical value, quotients truncated |
| ConstValues.ConstantExact | crates/plcc-hir/src/consts.rs:54-73 | so a constant has a value if and only if its initializer is such under the final table, and it is the mathematical one |
| ConstScopes.Qualify | crates/plcc-hir/src/consts.rs:189-208 | the constants of every POU, each from the POU's own least table over the globals, under the names POU.NAME |
| ConstScopes.OutsideIsInside | crates/plcc-hir/src/consts.rs:189-208 | POU.NAME is defined outside if and only if NAME is defined in the POU's table over the globals, and with the same value |
| ConstScopes.OutsideAdds | crates/plcc-hir/src/consts.rs:208-223 | a POU's constants keep their values when the outside names are added to the globals |
| ConstScopes.OnlyInside | crates/plcc-hir/src/consts.rs:189-223 | a constant that has a value inside its POU has no name outside if and only if its initializer leads to another POU's constant |
| ConstScopes.ShadowingIff | crates/plcc-hir/src/consts.rs:54-73 | the table is the one in which local constants hide global ones if and only if the hidden ones have the local values already |
| ArrayIndex.LinearIndex | crates/plcc-codegen/src/compiler.rs:7498-7557 | without wrapping, the row-major position of the clamped subscripts, inside the array whatever they are, and that of the subscripts themselves when they are in bounds |
| ArrayIndex.OffsetInside | crates/plcc-codegen/src/compiler.rs:7509-7545 | any subscript gives an offset inside its dimension, also one whose subtraction wraps; otherwise the nearest one |
| ArrayIndex.RowMajorInside | crates/plcc-codegen/src/compiler.rs:4341-4346 | offsets in range land inside the capacity |
| ArrayIndex.OffsetsOfPosition | crates/plcc-codegen/src/compiler.rs:7546-7557 | the offsets can be read off the position |
| ArrayIndex.PositionOfOffsets | crates/plcc-codegen/src/compiler.rs:7546-7557 | every position below the capacity has offsets; with the last row, tuples and positions correspond one to one |
| ArrayIndex.Stride | crates/plcc-codegen/src/compiler.rs:7546-7549 | the product of the extents after a dimension |
| ArrayIndex.NextInDimension | crates/plcc-codegen/src/compiler.rs:7546-7557 | one more in a dimension moves on by all elements of the dimensions behind it, and by one element in the last |
| ArrayIndex.CapacityIs | crates/plcc-codegen/src/compiler.rs:4341-4346 | there is an element for every choice of subscripts in bounds |
| Calendar.NextDayIsOneMore | crates/plcc-codegen/src/compiler.rs:121-129 | for every valid date of every year, negative ones included, the next day's number is one more |
| Calendar.EpochIsZero | crates/plcc-codegen/src/compiler.rs:119-129 | 1970-01-01 is day 0 |
| Calendar.StrictlyMonotone | crates/plcc-codegen/src/compiler.rs:121-129 | later dates have larger numbers |
| Calendar.Injective | crates/plcc-codegen/src/compiler.rs:121-129 | no two valid dates share a number |
| StringRoutines.StrLen | crates/plcc-codegen/src/compiler.rs:1571-1646 | the length, within 16 bits, without a read past the terminator |
| StringRoutines.ShortIff | crates/plcc-codegen/src/compiler.rs:1571-1646 | a buffer is one that LEN takes exactly if there is a NUL among its first 32768 bytes |
| StringRoutines.Find | crates/plcc-codegen/src/compiler.rs:1651-1833 | the least position in 1..LEN where the needle is, else 0, without a read past either terminator |
| StringRoutines.StrLeft | crates/plcc-codegen/src/compiler.rs:1838-1952 | the destination, possibly the source itself, holds the first max_len - 1 characters of LEFT and a NUL, and nothing behind its capacity changes |
| StringRoutines.StrRight | crates/plcc-codegen/src/compiler.rs:1957-2108 | the same for the part RIGHT takes |
| StringRoutines.StrMid | crates/plcc-codegen/src/compiler.rs:2113-2271 | the same for MID with a position in 1..LEN + 1 |
| StringRoutines.BoundedCopy | crates/plcc-codegen/src/compiler.rs:2302-2393 | appends a piece of a source, up to its NUL, its end or the limit |
| StringRoutines.StrReplace | crates/plcc-codegen/src/compiler.rs:2402-2535 | the same as StrLeft for REPLACE, where the destination may be either input |
| StringRoutines.RightExact | crates/plcc-codegen/src/compiler.rs:2001-2011 | RIGHT takes the last n characters if and only if LEN - n fits 32 bits or the string is empty |
| StringRoutines.PositionExact | crates/plcc-codegen/src/compiler.rs:2490-2495 | REPLACE starts at P clamped into 1..LEN + 1 if and only if P is not the least DINT or the string is empty |
| StringRoutines.MidWithin | crates/plcc-codegen/src/compiler.rs:2147-2159 | the first index MID reads is inside the string, its NUL included, if and only if the position is in 1..LEN + 1 |
| StringRoutines.TailWithin | crates/plcc-codegen/src/compiler.rs:2490-2498 | REPLACE copies its tail from inside IN1, behind the replaced characters, if and only if the start plus L, or 0 for a negative L, fits 32 bits; otherwise from before IN1 |
| StringRoutines.PartsAre | crates/plcc-codegen/src/compiler.rs:1836-2113 | LEFT, RIGHT and MID take as many characters as asked for, as far as there are any and none for a negative count, from their places |
| StringRoutines.ReplaceKeeps | crates/plcc-codegen/src/compiler.rs:2395-2401 | REPLACE takes out L characters from the position on, as far as there are any and none for a negative L, and keeps what is before and behind them, with IN2 between |
| StringRoutines.InsertDelete | crates/plcc-codegen/src/compiler/strings.rs:402-431 | INSERT and DELETE as special cases of REPLACE undo each other |
| StringRoutines.PartsOfString | crates/plcc-codegen/src/compiler.rs:1836-1838 | LEFT and RIGHT of complementary counts make up the string; MID is RIGHT of LEFT |
| TaskPlan.DueIff | crates/plcc-hal/src/scan.rs:189-225 | a task is due for an event if and only if it runs and its SINGLE rises; periodically if and only if it runs, has an interval, its due point has come and its SINGLE is not held; and otherwise if and only if it runs and has neither interval nor SINGLE |
| TaskPlan.GridConserved | crates/plcc-hal/src/scan.rs:189-225 | over any run of a task next_due is its first due point plus the interval times all points handled or skipped; it is periodically due once for each point handled without SINGLE held, each time in a slot of its own, and for an event as often as a rising edge was sampled |
| TaskPlan.PlanKeeps | crates/plcc-hal/src/scan.rs:189-225 | one decision keeps that account, and a task periodically due is so in the slot that ends at the new due point |
| TaskPlan.ConsultsAhead | crates/plcc-hal/src/scan.rs:206-225 | whenever the interval code ran, next_due is after now, and at most one interval after it if a point was reached |
| TaskPlan.Skips | crates/plcc-hal/src/scan.rs:217-223 | exactly the grid points up to now are counted as overruns |
| TaskPlan.EdgeSkipsPoint | crates/plcc-hal/src/scan.rs:193-201 | a rising SINGLE edge leaves the grid where it is, so a later look at it counts the point as overrun |
| Scan.SimTaskScheduler.CreateTask | crates/plcc-hal/src/simulator.rs:185-192 | a new, stopped task under the next handle |
| Scan.SimTaskScheduler.StartTask | crates/plcc-hal/src/simulator.rs:194-202 | sets one task running, or reports an invalid handle and changes nothing |
| Scan.SimTaskScheduler.StopTask | crates/plcc-hal/src/simulator.rs:204-212 | stops one task, or reports an invalid handle and changes nothing |
| Scan.SimTaskScheduler.IsRunning | crates/plcc-hal/src/simulator.rs:214-219 | whether a task runs, or nothing for an invalid handle |
| Scan.SimProcessImage.ReadInputs | crates/plcc-hal/src/simulator.rs:151-155 | byte k is input byte k as long as there is one, and as it was behind the image |
| Scan.SimProcessImage.WriteOutputs | crates/plcc-hal/src/simulator.rs:157-161 | output byte k is the source's byte k as long as there is one, and as it was behind it; no other field changes |
| Scan.ScanCycle.constructor | crates/plcc-hal/src/scan.rs:85-106 | every task of the program registered, running, off the grid, and no other task touched |
| Scan.ScanCycle.Start | crates/plcc-hal/src/scan.rs:132-149 | the state after a cold or warm start or a fault in init, and the invariant kept |
| Scan.ScanCycle.PlanTask | crates/plcc-hal/src/scan.rs:189-225 | the branches of the loop decide what the plan of one task says |
| Scan.ScanCycle.StepAt | crates/plcc-hal/src/scan.rs:167-242 | the state and the report after one cycle, and the invariant kept |
| Scan.ScanCycle.StopOnFault | crates/plcc-hal/src/scan.rs:247-262 | all tasks stopped, %Q and the outputs it covers zero, the fault remembered |
| Scan.StepProper | crates/plcc-hal/src/scan.rs:167-242 | a step keeps every task on its grid whatever the program does |
| ScanLaws.RunOnGrid | crates/plcc-hal/src/scan.rs:167-242 | after every run of starts, steps, new inputs and tasks switched from outside, every task is on its grid, was periodically due in a slot of its own for every point handled without SINGLE held, and due for exactly the rising edges seen |
| ScanLaws.RanInOrder | crates/plcc-hal/src/scan.rs:187-240 | a step runs exactly the tasks that are switched on and have a rising SINGLE, a due point that has come with SINGLE not held, or neither interval nor SINGLE; smaller priority numbers first, and the earlier of equals |
| ScanLaws.NextDueLeast | crates/plcc-hal/src/scan.rs:237-237 | the due time reported is the least of the tasks' |
| ScanLaws.LaterNotRun | crates/plcc-hal/src/scan.rs:229-235 | after a fault no later due task has run in that step |
| ScanLaws.FaultIsSafe | crates/plcc-hal/src/scan.rs:247-262 | any fault of a task or an initial value leaves every task stopped and %Q and the outputs it covers zero |
| ScanLaws.FaultLatched | crates/plcc-hal/src/scan.rs:172-180 | until the next start nothing of program, tasks or outputs changes, and every step returns the same fault |
| ScanLaws.StartResets | crates/plcc-hal/src/scan.rs:132-141 | a start resets the tasks after a fault and only then |
| ScanSteps.StepRuns | crates/plcc-hal/src/scan.rs:167-262 | a step latches the inputs byte by byte and runs these tasks in this order, each on the memory the one before leaves; if one faults, the step fails with its name and fault and all is stopped and safe; otherwise it reports them and the outputs go out byte by byte |
| ScanSteps.ReportConserved | crates/plcc-hal/src/scan.rs:217-237 | a step reports the least due time its tasks have afterwards, and as many overruns as it adds to their accounts |
| ScanSteps.StartDoes | crates/plcc-hal/src/scan.rs:132-149 | a fault in init stops the PLC safely; otherwise a start is warm if and only if the storage has data the program takes, and goes on from them, with all tasks switched on and afresh after a fault and as they were without one |
| ScanSteps.FirstStep | crates/plcc-hal/src/scan.rs:167-180 | the first step starts the PLC, and fails with "init" if and only if init faults |
| Retain.Application.RetainSnapshot | crates/plcc-hal/src/app.rs:269-278 | magic, signature, then each region's size and bytes in table order |
| Retain.Application.RestoreRetain | crates/plcc-hal/src/app.rs:283-312 | a blob is applied in full when the check accepts it, and changes nothing otherwise |
| Retain.Application.Validate | crates/plcc-hal/src/app.rs:294-307 | the spans are those of the regions, one behind the other, or the blob is malformed |
| Retain.RoundTrip | crates/plcc-hal/src/app.rs:269-312 | for disjoint regions below 2^32 bytes, restoring a snapshot into any state recreates the bytes, and a snapshot is the same again |
| Retain.BodyAfterApply | crates/plcc-hal/src/app.rs:283-312 | after a restore the bodies of the regions are the part of the blob that was consumed |
| Retain.SnapshotAfterApply | crates/plcc-hal/src/app.rs:269-312 | after a successful restore of any blob a snapshot is that blob, header included, up to the last region |
| Retain.OwnSnapshotAccepted | crates/plcc-hal/src/app.rs:269-312 | a program's own snapshot is accepted if and only if every region is smaller than 2^32 bytes |
| Retain.AppliedElsewhere | crates/plcc-hal/src/app.rs:308-311 | a restore touches nothing apart from the regions |
| RetainFormat.SnapshotLayout | crates/plcc-hal/src/app.rs:267-278 | a snapshot is "PLCR", the signature, and each region's size and bytes, one behind the other |
| RetainFormat.LittleEndian | crates/plcc-hal/src/app.rs:267-278 | numbers are stored in four bytes, the lowest first |
| RetainFormat.TableIff | crates/plcc-hal/src/app.rs:262-278 | a table is well-formed if and only if its regions lie in memory, each ahead of or behind every other |
| RetainFormat.AcceptedIff | crates/plcc-hal/src/app.rs:283-312 | the blobs accepted are exactly those that begin with a snapshot some memory of the program would give, every region being below 2^32 bytes |
| RetainFormat.MismatchIff | crates/plcc-hal/src/app.rs:284-293 | a blob is refused as another program's if and only if it has the mark and another signature, which is reported |
| Crc16.ComputeCrc | demo/protocols/modbus_rtu.c:21-35 | the bitwise loop computes the CRC of the first len bytes |
| Crc16.SampleCrc | demo/protocols/modbus_rtu.c:21-35 | the CRC of the frame 02 07 is 0x1241, as MODBUS over Serial Line V1.02, section 6.2.2, has it |
| Crc16.BurstDetected | demo/protocols/modbus_rtu.c:21-35 | two frames of equal length, however long, that differ only inside two neighbouring bytes have different CRCs |
| CrcErrors.WindowDetected | demo/protocols/modbus_rtu.c:21-35 | so have two that differ only inside 16 neighbouring bits, wherever they begin |
| CrcErrors.OddFlipsDetected | demo/protocols/modbus_rtu.c:21-35 | so have two that differ in an odd number of bits, wherever they are |
| CrcPeriod.ReturnsIff | demo/protocols/modbus_rtu.c:21-35 | the register, shifted without input, comes back to its top bit exactly after multiples of 32767 steps |
| CrcPeriod.TwoFlipsIff | demo/protocols/modbus_rtu.c:21-35 | frames of equal length that differ in one bit of each of two bytes have different CRCs if and only if the distance of the two bits is no multiple of 32767 |
| CrcPeriod.TwoFlipsDetected | demo/protocols/modbus_rtu.c:21-35 | so have all frames of at most 4095 bytes that differ in exactly two bits, wherever they are |
| Crc16.TrailerIffZero | demo/protocols/modbus_rtu.c:285-288 | the check passes if and only if the CRC over the whole frame, trailer included, is zero |
| Crc16.FrameMatches | demo/protocols/modbus_rtu.c:75-76 | a payload with its CRC appended passes the check |
| Crc16.MatchesFrame | demo/protocols/modbus_rtu.c:285-288 | only such a frame passes it |
| ModbusNumbers.CountIs | demo/protocols/modbus_rtu.c:89-90 | two bytes of a frame are a number, the high one first |
| ModbusNumbers.AddressIs | demo/protocols/modbus_rtu.c:113-113 | the addresses of a request follow one another, and 0 follows 65535 |
| Modbus.ModbusRtu.RxByte | demo/protocols/modbus_rtu.c:58-62 | appends the byte unless the buffer is full |
| Modbus.ModbusRtu.RxReset | demo/protocols/modbus_rtu.c:64-66 | empties the receive buffer |
| Modbus.ModbusRtu.SendException | demo/protocols/modbus_rtu.c:70-80 | the exception frame and one more error counted |
| Modbus.ModbusRtu.ReadCoils | demo/protocols/modbus_rtu.c:84-130 | the FC01 reply, or its exception, and the application's state |
| Modbus.ModbusRtu.LoadCoils | demo/protocols/modbus_rtu.c:104-121 | the data bytes are the packed coils, unless a coil cannot be read |
| Modbus.ModbusRtu.ReadHoldingRegs | demo/protocols/modbus_rtu.c:134-175 | the same for FC03 |
| Modbus.ModbusRtu.WriteSingleReg | demo/protocols/modbus_rtu.c:179-212 | the same for FC06, which echoes address and value |
| Modbus.ModbusRtu.WriteMultipleRegs | demo/protocols/modbus_rtu.c:216-265 | the same for FC16 |
| Modbus.ModbusRtu.StoreRegs | demo/protocols/modbus_rtu.c:237-251 | the words are written in order up to the first that is refused |
| Modbus.ModbusRtu.Process | demo/protocols/modbus_rtu.c:269-326 | for every received frame: silence for short, foreign and damaged ones, no reply to a broadcast, else the framed reply; counters and state in every case |
| ModbusLaws.ReplyFits | demo/protocols/modbus_rtu.c:70-265 | every reply fits 256 bytes, starts with the slave's address and passes the CRC check itself |
| ModbusLaws.ReplyShape | demo/protocols/modbus_rtu.c:298-316 | "illegal function" exactly for the codes that are not served; a reply repeats the code, an exception with its top bit set |
| ModbusLaws.DamagedRejected | demo/protocols/modbus_rtu.c:285-292 | a frame damaged inside two neighbouring bytes is not accepted |
| ModbusLaws.BurstRejected | demo/protocols/modbus_rtu.c:285-292 | nor is one damaged inside 16 neighbouring bits |
| ModbusLaws.OddFlipsRejected | demo/protocols/modbus_rtu.c:285-292 | nor is one with an odd number of flipped bits |
| ModbusLaws.FewFlipsRejected | demo/protocols/modbus_rtu.c:285-292 | nor, up to 4095 bytes, is one with one, two or three flipped bits |
| ModbusLaws.CoilReply | demo/protocols/modbus_rtu.c:84-130 | an FC01 reply holds coil start + i in bit i mod 8 of data byte i / 8, and zeros behind the last |
| ModbusServed.CoilsServed | demo/protocols/modbus_rtu.c:84-130 | an FC01 request for 1 to 2000 coils is answered with them, eight to a byte, if all can be read, and with "illegal data address" otherwise |
| ModbusServed.RegistersServed | demo/protocols/modbus_rtu.c:134-175 | an FC03 request for 1 to 125 registers is answered with them, high byte first, if all can be read, and with "illegal data address" otherwise |
| ModbusServed.ValueRefusedIff | demo/protocols/modbus_rtu.c:84-265 | "illegal data value" is the answer if and only if a frame is too short for its function code, asks for no value or for more than 2000 coils, 125 or 123 registers, or has an FC16 byte count that is not twice the quantity or more than the frame |
| ModbusServed.StoredInOrder | demo/protocols/modbus_rtu.c:237-251 | the words of an FC16 request are offered one by one from its address on, up to the first that is refused, and nothing else changes the application |
| ModbusLaws.WriteThenRead | demo/protocols/modbus_rtu.c:134-265 | after a successful FC16 write an FC03 read of the same range, wrapping addresses included, returns the written words |
| ModbusLaws.WriteServed | demo/protocols/modbus_rtu.c:216-265 | an FC16 request of 1 to 123 words is answered with its range, or with "illegal data address" when a word is refused |
| ModbusLaws.ReadServed | demo/protocols/modbus_rtu.c:134-175 | an FC03 request of 1 to 125 words is answered with the registers, or with "illegal data address" |
| ModbusLaws.WriteOneEchoed | demo/protocols/modbus_rtu.c:179-212 | an FC06 request is echoed when the register takes the value, else answered with "illegal data address" |
| ModbusLaws.WriteOneThenRead | demo/protocols/modbus_rtu.c:134-212 | after a successful FC06 write an FC03 read of the register returns the value |
| ModbusLaws.RequestsTaken | demo/protocols/modbus_rtu.c:269-292 | such requests to the slave's address fit the buffer and pass its checks |
| TemplateExpr.Lex | crates/plcc-device/src/expr.rs:76-113 | the tokens or the error of a text |
| TemplateExpr.Parser.ParseSum | crates/plcc-device/src/expr.rs:128-137 | the value of a sum and the place behind it, or the first failure; the mutual recursion ends |
| TemplateExpr.Parser.ParseProduct | crates/plcc-device/src/expr.rs:139-152 | the same for a product |
| TemplateExpr.Parser.ParseUnary | crates/plcc-device/src/expr.rs:154-160 | the same for a signed factor |
| TemplateExpr.Parser.ParseAtom | crates/plcc-device/src/expr.rs:162-180 | the same for a literal, n, or a parenthesized sum |
| TemplateExpr.Eval | crates/plcc-device/src/expr.rs:49-57 | the value of a text, an error for left-over tokens |
| TemplateExpr.Expand | crates/plcc-device/src/expr.rs:9-41 | the expanded template or the first error |
| TemplateLaws.EvalPrinted | crates/plcc-device/src/expr.rs:117-180 | the tokens of any expression tree, with parentheses where precedence needs them and anywhere else, evaluate to the tree's checked value, errors and panics included |
| TemplateLaws.ValueIsExact | crates/plcc-device/src/expr.rs:128-160 | there is a value if and only if every subexpression is defined, fits 64 bits and is not MIN % -1, and it is the mathematical one with truncating division; there is a panic if and only if the first thing to go wrong is a division of MIN by -1 |
| TemplateText.EvalSpelled | crates/plcc-device/src/expr.rs:49-180 | the same for the text of any tree, with any white space between its tokens and any zeros in front of its numbers, unless a literal is too large, which is then the error |
| TemplateText.TooLargeIff | crates/plcc-device/src/expr.rs:76-113 | the text of a tree is refused for a literal if and only if a literal exceeds 2^63 - 1 |
| TemplateText.TemplateExpands | crates/plcc-device/src/expr.rs:9-41 | a template of escaped text and spelled expressions expands to the text with the values in their places, or the first error |
| TemplateText.PlaceholderIff | crates/plcc-device/src/expr.rs:43-46 | a template without placeholder expands independently of n; one with a placeholder cannot expand without an evaluation |
| TemplateGrammar.EvaluatesIff | crates/plcc-device/src/expr.rs:49-180 | a text has a value if and only if it is such a spelling of an expression whose parts all have mathematical values that fit, and that is its value |
| TemplateGrammar.TokensRead | crates/plcc-device/src/expr.rs:117-180 | tokens that evaluate are those of a tree with that value |
| TemplateErrors.WordErrors | crates/plcc-device/src/expr.rs:76-113 | a text in which a name other than n or a character without meaning follows tokens is refused for that, and one without tokens as empty, unless a number before is too large |
| TemplateErrors.LeftOver | crates/plcc-device/src/expr.rs:49-57 | what stands behind an expression and is no operator is unexpected |
| TemplateErrors.NotClosed | crates/plcc-device/src/expr.rs:162-180 | an expression behind an opening parenthesis that is not closed is refused for that |
| TemplateErrors.NoOperand | crates/plcc-device/src/expr.rs:154-180 | where the first operand is missing, the end comes too early and any other token is unexpected |
| TemplateErrors.NoSecondOperand | crates/plcc-device/src/expr.rs:128-137 | so it is behind + and - |
| TemplateErrors.BraceErrors | crates/plcc-device/src/expr.rs:11-39 | a brace that opens behind text and expressions with values and is not closed, or closes and was not opened, is refused for that |
| TemplateReads.ShownAs | crates/plcc-device/src/expr.rs:34-34 | a value becomes its decimal text: a minus if and only if it is negative, and digits without a zero in front |
| TemplateReads.ShownOnce | crates/plcc-device/src/expr.rs:34-34 | there is only one such text of a value |
| TemplateReads.DecimalPlaces | crates/plcc-device/src/expr.rs:85-93 | a digit of a literal stands for as many powers of ten as there are digits behind it |
| TemplateReads.ShowEvaluates | crates/plcc-device/src/expr.rs:34-57 | the text of a value evaluates to that value again, unless it is the smallest |
| TemplateReads.ExpansionReads | crates/plcc-device/src/expr.rs:9-41 | a template expands if and only if all its expressions have values that fit, and then to a text in which the literal parts stand as they are and each mathematical value in decimal |
| TemplateReads.ExpandsIff | crates/plcc-device/src/expr.rs:9-41 | a template expands to a text if and only if it is written from literal parts, braces doubled, and expressions in braces whose parts have values that fit, and the text has their values in decimal in their places |
| Failures.MinusOneIsLargest | crates/plcc-codegen/src/compiler.rs:3767-3783 | LINT#-1 equals the largest ULINT and is not below ULINT#0 |
| Failures.FiveBelowMinusOne | crates/plcc-codegen/src/compiler.rs:3716-3783 | BYTE#5 > -1 does not hold |
| Failures.NegativeQuotient | crates/plcc-codegen/src/compiler.rs:8378-8499 | LINT#-4 / ULINT#2 is 9223372036854775806 |
| Failures.ByteLoopNeverEnds | crates/plcc-codegen/src/compiler.rs:6757-6786 | FOR b := 250 TO 255 over a BYTE, with an empty body, never ends |
| Failures.TensGoOn | crates/plcc-codegen/src/compiler.rs:6757-6786 | FOR b := 0 TO 250 BY 10 over a BYTE, with an empty body, goes on with 4 after the 26 counted rounds and ends at 254 after 51 |
| Failures.BoundBeyondType | crates/plcc-codegen/src/compiler.rs:6699-6786 | FOR b := 0 TO 300 over a BYTE, with an empty body, never ends |
| Failures.UndeclaredBaseResolves | crates/plcc-hir/src/check.rs:1220-1229 | a TYPE that is a subrange of an undeclared name resolves to a subrange of INT and has no declared layout |
| Failures.OrderOfFieldMatters | crates/plcc-hir/src/check.rs:1220-1229 | a field that is a subrange of a DINT type declared behind the STRUCT is a subrange of INT, and of DINT in the other order |
| Failures.RightOfLeast | crates/plcc-codegen/src/compiler.rs:2001-2011 | RIGHT of a string of two characters with the least DINT is the string and not the empty one |
| Failures.ReplaceAtLeast | crates/plcc-codegen/src/compiler.rs:2490-2495 | REPLACE at the least DINT starts behind the end and not at the first character |
| Failures.MidOutside | crates/plcc-codegen/src/compiler.rs:2147-2159 | MID of a string of two characters from position 0 starts to read before it, and from position 4 behind its NUL |
| Failures.TailOutside | crates/plcc-codegen/src/compiler.rs:2490-2498 | REPLACE of 2147483647 characters of such a string from position 2 copies its tail from index -2147483648 |
| Failures.MinByMinusOnePanics | crates/plcc-device/src/expr.rs:139-152 | the text (-9223372036854775807-1)/-1 panics |
| Failures.LeastLiteralRefused | crates/plcc-device/src/expr.rs:76-113 | the text -9223372036854775808 is refused, though its value fits 64 bits |
| Failures.HugeRegionLost | crates/plcc-hal/src/app.rs:269-312 | a program with a region of 2^32 bytes does not accept its own snapshot |
| Failures.OnlyInsideA | crates/plcc-hir/src/consts.rs:189-223 | C := B.D + 1 is 2 inside its POU when B.D is 1, and has no value in the table its name outside is taken from |
| Failures.ShadowedKeepsOuter | crates/plcc-hir/src/consts.rs:54-73 | a local K := 2 below a global K = 1 is 1 |

## Left out

- Expressions that open blocks of their own (AND_THEN, OR_ELSE, calls) and run-time faults inside expressions: in the control-flow model an expression is a function of the store.
- FOR over anything but a plain variable, and the dialect that faults on a subscript out of bounds instead of clamping it.
- Operands of type BOOL, REAL, enumeration, subrange, pointer, time and string in the typing model; EXPT, rounding and float conversions.
- STRUCT, FUNCTION_BLOCK, METHOD, interface and VAR_IN_OUT lowering, and the emission of LLVM instructions, objects and bitcode as such.
- The enumerator registry and the numbering of enumerators in TYPE resolution; `validate_declared_types`, which later checks what lies behind pointers.
- `Folder`, which writes the constants into the tree, and the tables of methods, which extend their block's table as a POU's extends the globals.
- Case folding outside ASCII.
- StringRoutines.StrMid: requires a position in 1..LEN + 1, since the model does not have the memory outside the string; `MidWithin` says that every other position reads there.
- StringRoutines.StrReplace: requires that the start plus L fits 32 bits, for the same reason; `TailWithin` says that every other tail lies there.
- TypeLayouts.ResolvesLayouts: requires, as all results on whole units do, that no TYPE has the name of a POU, whose entry it would replace in the middle of the first round, and that the entries of POUs are complete.
- Destinations that overlap a source without being it; CONCAT and the copies around a string statement.
- Scheduler handles that become invalid while the cycle runs, and times beyond 64 bits; clocks, watchdogs, diagnostics and the file behind the retain storage.
- Years beyond 64-bit integers in `days_from_civil`.
- RETAIN regions that overlap, and raw pointers: a region is a range of one memory.
- Modbus TCP, timing between frames, and callbacks that re-enter the slave.
- The texts of error messages in the template evaluator; its errors are told apart by kind.
- The readers of other project formats, the checker, the ladder model, driver descriptions, the command line and the studio.

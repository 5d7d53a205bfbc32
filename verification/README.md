# NEMU: arithmetic, evaluator, lists and tables

NEMU is an IA-32 emulator; its repository also holds a small kernel and games that run on it. This
project models the parts whose correctness takes an argument and proves what they promise. Methods
follow the C functions statement by statement, on arrays and fields where the C code updates
arrays, globals and lists; each is proved against a specification on values, and the laws are
lemmas about those specifications.

- **Binary32 arithmetic** (`Binary32`, `Rounding`, `Normalize`, `Fpu`, `FpuMul`, `FpuDiv`,
  `FpuLaws`, `FpuExamples`). A pair of exponent and significand with three extra bits stands for
  the exact real `sig * 2^(exp - 153)`. The sticky loops are rounding to odd; it commutes with
  adding an even integer and is invisible to the final rounding. Addition and subtraction are
  correctly rounded on all finite operands. Multiplication and division are, up to exact conditions.
- **Integer ALU** (`Alu`, `AluChains`, `AluShifts`). The flags of one limb, and what a chain of
  limbs of any length decides.
- **The monitor's expressions** (`Tokens`, `Evaluator`, `Lexer`, `MonitorExpr`, `Expressions`,
  `ExprText`, `ExprDepartures`). Trees are printed with the parentheses that C's
  precedence and associativity need and a few more around negations and dereferences, rendered as
  text, tokenised, marked and evaluated; the result is the tree's value. Without those few it may not
  be, and the exact conditions are proved.
- **Breakpoints** (`BreakpointRuns`, `Breakpoints`). Two lists through one pool, and INT3 bytes laid
  over memory.
- **The linked list and the typing game** (`LinkLists`, `Letters`, `TypingGame`). The pool-allocated
  list, the letters on it, and the main loop under arbitrary interrupts.
- **Page tables** (`Paging`) and the **interrupt controller** (`Interrupts`).

`Lists` holds what the two list modules share; `Words` and `Options` are small vocabulary.

Where the code does something else than its comments, documentation or the standard say, the model
follows the code and the condition is proved:

- A number in [2^-126 - 2^-150, 2^-126) rounds up to 2^-126 but keeps exponent field 0 and becomes
  zero (nemu/src/cpu/fpu.c:86-90). Sums never get there; products and quotients can.
- The product of 2^-149 and an operand of biased exponent 149 is read on the scale of exponent 1
  and comes out doubled (nemu/src/cpu/fpu.c:62-66).
- Division drops its remainder (nemu/src/cpu/fpu.c:281), which can cost one unit in the last place.
- `||` has level 0, which `dominant_op` never selects, so an expression with `||` always ends in a
  failed assertion (nemu/src/monitor/expr.c:196-197, 231). `&&` evaluates both operands, so the
  monitor fails where C would have skipped an undefined right operand. `EvalPrint` is exact about both.
- A negation binds like a binary minus (nemu/src/monitor/expr.c:217-220), so that `-6 / 4` is
  `-(6 / 4)`: `NegatedRootIff` and `NegatedValueIff` say when that matters. Negation and dereference
  are not recognised after `+`, `-`, shifts or another unary operator (`UnmarkedText`, `StackedText`), so
  that `5 - -3` is 2, `5 + *p` is 5 and `!-5` fails (`UnmarkedMinusIff`, `UnmarkedStarIff`,
  `StackedEval`). Printing puts them in parentheses
  there, and a negation also before operators that bind tighter.
- All operands are of type uint32_t: `(-6) / 4` is 0x3FFFFFFE, as in C after a cast, not -1.
- Every letter falls at the same speed: the integer division in `create_new_letter`
  (game/src/typing/effect.c:47) is always 0, although the comment calls the speed random.
- The interrupt controller keeps one vector only. Lower lines raised before the CPU's query are lost,
  and so is every line, however high, raised between query and acknowledgement. `NoRaiseLostIff` and
  `HighestDeliveredIff` say when nothing is lost.
- Setting an address twice can leave INT3 bytes behind; `DeleteAllIff` and `LeftBehindIff` say exactly
  when.
- The conditions that read ZF look at the last limb of a chain only; `ZeroConditionsIff` says when
  they still decide.

## Model

| member | source | states |
|---|---|---|
| Binary32.KnownEncodings | nemu/include/cpu/fpu.h:11-16 | zeros, infinities and NaNs by their fields (IEEE 754-2008, section 3.4), and which of them the six constants are |
| Binary32.MagMonotone | nemu/include/cpu/reg_fpu.h:46-56 | the 31 bits below the sign, read as an integer, order the magnitudes they encode (IEEE 754-2008, section 3.4) |
| Binary32.RoundExists | nemu/src/cpu/fpu.c:67-90 | every non-negative real has a nearest code, ties to even, infinity from the overflow bound on |
| Binary32.RoundsToMonotone | nemu/src/cpu/fpu.c:67-90 | rounding to nearest even is unique and monotone on all reals, so it is one function |
| Rounding.JamHalves | nemu/src/cpu/fpu.c:18-26 | one turn of the sticky loop turns a number rounded to odd into its half rounded to odd |
| Rounding.OddPlusEven | nemu/src/cpu/fpu.c:131-140 | rounding to odd commutes with adding an even integer |
| Rounding.OddInQuarter | nemu/src/cpu/fpu.c:67-72 | a number and its rounding to odd lie on the same side of every multiple of four, so the last rounding does not see the sticky bit |
| Rounding.RoundAt | nemu/src/cpu/fpu.c:67-90 | rounding the last three bits half to even gives the nearest code, whatever pair of exponent and significand names the number |
| Normalize.ShiftRightOnce | nemu/src/cpu/fpu.c:15-26 | the right-shift loop keeps the number the pair stands for, to odd |
| Normalize.ShiftLeftOnce | nemu/src/cpu/fpu.c:46-53 | the left-shift loop is lossless |
| Normalize.LeftDenormal | nemu/src/cpu/fpu.c:54-60 | what the loop leaves at exponent 0 is read on the scale of exponent 1 without loss |
| Normalize.RoundAndPack | nemu/src/cpu/fpu.c:67-90 | grs rounding, carry into the exponent and packing give the stored code of the exact number |
| Normalize.InternalNormalize | nemu/src/cpu/fpu.c:9-91 | for every acceptable pair the result depends only on the sign and the exact number x: the nearest code, except that [2^-126 - 2^-150, 2^-126) becomes zero |
| Fpu.AlignRight | nemu/src/cpu/fpu.c:127-137 | the alignment loop gives the smaller operand, to odd, on the scale of the larger; exact for up to three places |
| Fpu.AlignedSum | nemu/src/cpu/fpu.c:124-140 | the aligned significands, signed and added, stand for the exact sum |
| Fpu.SumNotFlushed | nemu/src/cpu/fpu.c:86-90 | no sum of two finite operands lies in the flushed band |
| Fpu.AddOrdered | nemu/src/cpu/fpu.c:123-144 | with the smaller exponent first, two's-complement addition and normalisation give the correctly rounded sum |
| Fpu.InternalFloatAdd | nemu/src/cpu/fpu.c:93-145 | a + b for every pair of bit patterns: for finite operands the exact sum rounded to nearest even, overflow to the signed infinity, exact cancellation to +0; infinities as section 6 of IEEE 754-2008 says; which NaN comes out, those of payloads the program does not know included |
| Fpu.InternalFloatSub | nemu/src/cpu/fpu.c:147-176 | a - b for every pair of bit patterns: the exact difference rounded to nearest even, +0 on cancellation except for -0 - +0; infinities and NaNs as for the sum |
| FpuMul.InternalFloatMul | nemu/src/cpu/fpu.c:178-221 | a * b for every pair of bit patterns: special cases by section 6 of the standard, finite operands their exact product (twice it if misread) as stored; a NaN of another payload is taken for a number of exponent 255 |
| FpuMul.ProductCorrectIff | nemu/src/cpu/fpu.c:190-221 | multiplication is correctly rounded if and only if the operands are not (2^-149, exponent 149) and the exact product is not in [2^-126 - 2^-150, 2^-126) |
| FpuMul.MisreadProduct | nemu/src/cpu/fpu.c:62-66 | a misread product comes out as exactly twice its value, which is never the rounded product |
| FpuMul.FlushedRoundsUp | nemu/src/cpu/fpu.c:69-90 | every number in the flushed band should have become 2^-126 |
| FpuDiv.ShiftUp | nemu/src/cpu/fpu.c:270-275 | the dividend's loop is the function Raised: bit 63 set and the number of places |
| FpuDiv.ShiftDown | nemu/src/cpu/fpu.c:276-280 | the divisor's loop strips exactly the trailing zeros and adds their number to the shift |
| FpuDiv.TruncatedQuotientIs | nemu/src/cpu/fpu.c:266-281 | the 64-bit quotient has at least forty bits, is the exact quotient truncated to its grid, and is exact iff there is no remainder |
| FpuDiv.DivFinite | nemu/src/cpu/fpu.c:265-285 | for non-zero operands the result is the truncated quotient as stored |
| FpuDiv.InternalFloatDiv | nemu/src/cpu/fpu.c:223-286 | a / b for every pair of bit patterns: special cases by section 6 of the standard, finite operands as above; a NaN of another payload is taken for a number of exponent 255 |
| FpuDiv.SameGap | nemu/src/cpu/fpu.c:281 | truncation leaves the quotient in the same gap between neighbouring codes, less than 2^-16 of the gap lower, and never moves it across the midpoint |
| FpuDiv.TruncatedRounds | nemu/src/cpu/fpu.c:281 | the truncated quotient rounds to the code of the exact one, or to one less, the latter exactly when truncation lands on the midpoint above an even code |
| FpuDiv.MidpointBitsIff | nemu/src/cpu/fpu.c:266-285 | that midpoint, seen in the bits of the integer quotient: odd part one more than a multiple of four, and its place |
| FpuLaws.SumCommutes | nemu/src/cpu/fpu.c:108-145 | addition is commutative bit for bit, infinities and NaNs included, except if and only if a NaN of another payload meets a different operand that is not finite |
| FpuLaws.SumMonotone | nemu/src/cpu/fpu.c:108-145 | addition is monotone in each operand, overflow included |
| FpuLaws.SelfDifference | nemu/src/cpu/fpu.c:159-176 | x - x is +0 for every finite x |
| FpuLaws.SmallSumExact | nemu/src/cpu/fpu.c:108-145 | a sum below 2^-126 in magnitude is exact |
| FpuLaws.CloseDifferenceExact | nemu/src/cpu/fpu.c:159-176 | a - b is exact when a and b are within a factor of two of each other |
| FpuLaws.ProductExact | nemu/src/cpu/fpu.c:190-221 | a representable product of operands that are not misread comes out exactly |
| FpuLaws.QuotientWithinOne | nemu/src/cpu/test/fpu_test.c:101-132 | the quotient equals the correctly rounded one or is one unit in the last place less, as the repository's division test allows, except in the flushed band |
| FpuLaws.QuotientCorrectIff | nemu/src/cpu/fpu.c:266-285 | division is correctly rounded if and only if the quotient is not in the flushed band and no remainder is dropped behind a quotient whose bits end at the midpoint above an even code |
| FpuLaws.QuotientErrorBound | nemu/src/cpu/fpu.c:265-285 | a finite result is within (1/2 + 2^-16) ulp of the exact quotient |
| FpuLaws.QuotientExact | nemu/src/cpu/fpu.c:265-285 | a representable quotient comes out exactly |
| FpuLaws.MultiplyDivideRoundTrip | nemu/src/cpu/fpu.c:190-286 | dividing a representable product by b returns the bits of a, subnormal operands included |
| FpuExamples.DivisionOffByOne | nemu/src/cpu/fpu.c:281 | 0x3F8000DD / 0x3F80061B comes out one unit too small |
| FpuExamples.ProductFlushed | nemu/src/cpu/fpu.c:86-90 | 0x3F7FFFFF * 0x00800000 comes out as zero instead of 2^-126 |
| FpuExamples.QuotientFlushed | nemu/src/cpu/fpu.c:86-90 | 0x00FFFFFF / 0x40000000 comes out as zero instead of 2^-126 |
| FpuExamples.ProductDoubled | nemu/src/cpu/fpu.c:62-66 | 0x00000001 * 0x4A800000 comes out doubled |
| Alu.Cpu.AluAdd | nemu/src/cpu/alu.c:3-26 | result and all five flags are those of the exact signed and unsigned sum, at widths 8, 16 and 32 |
| Alu.Cpu.AluAdc | nemu/src/cpu/alu.c:28-51 | the same with the old carry added |
| Alu.Cpu.AluSub | nemu/src/cpu/alu.c:53-76 | result and flags are those of the exact difference |
| Alu.Cpu.AluSbb | nemu/src/cpu/alu.c:78-101 | the same with the old borrow subtracted |
| Alu.SumByTopBits | nemu/src/cpu/alu.c:28-51 | the carry and overflow tricks on top bits and comparisons decide what the exact sum does |
| Alu.DifferenceByTopBits | nemu/src/cpu/alu.c:78-101 | likewise for the difference |
| Alu.SumFlags | nemu/src/cpu/alu.c:43-45 | after add and adc ZF says that the exact sum is 0 modulo the base, SF is its top bit modulo the base, PF says that the exclusive or of its lowest eight bits is 0 |
| Alu.DifferenceFlags | nemu/src/cpu/alu.c:93-95 | the same after sub and sbb for the exact difference |
| Alu.SignedIff | nemu/src/cpu/alu.c:46-50 | the two's-complement reading is the one number of the signed range that is congruent to the limb |
| AluChains.SumChainExact | nemu/src/cpu/alu.c:3-51 | alu_add then alu_adc over any number of limbs: limbs plus final CF are the exact sum, final OF is signed overflow and SF the sign of the whole number |
| AluChains.SumChainZero | nemu/src/cpu/alu.c:18-43 | after a chain of additions ZF says that the whole sum, modulo B^k, does not reach the last limb |
| AluChains.DifferenceChainExact | nemu/src/cpu/alu.c:53-101 | alu_sub then alu_sbb: the exact difference modulo B^k, final CF iff the unsigned number is smaller, final SF != OF iff the two's-complement number is smaller |
| AluChains.DifferenceUndoesSum | nemu/src/cpu/alu.c:3-101 | the sub/sbb chain gives back every limb the add/adc chain added to |
| AluChains.SignedNumIs | nemu/src/cpu/alu.c:53-101 | the two's-complement reading of a limb sequence is its unsigned value, less B^k if the top bit is set |
| AluChains.CompareConditions | nemu/include/cpu/instr_helper.h:169-219 | after a compare of single limbs each of the nine ordering conditions is the order it is named for |
| AluChains.ChainConditions | nemu/include/cpu/instr_helper.h:175-216 | after a chain of any length b, ae, l and ge still decide the order of the whole numbers |
| AluChains.ZeroConditionsIff | nemu/include/cpu/instr_helper.h:169-219 | e, a, be, g and le, which read ZF of the last limb only, decide the order of the whole numbers exactly when the difference modulo B^n is zero or reaches its last limb, or the other flag has decided already |
| AluShifts.AluShl | nemu/src/cpu/alu.c:285-306 | result and CF equal shifting one place at a time, OF untouched, for every count for which C defines the shifts; a count of 0 clears CF; alu_sal is the same code |
| AluShifts.AluShr | nemu/src/cpu/alu.c:308-329 | likewise to the right, for counts 1 to 31 |
| AluShifts.AluSar | nemu/src/cpu/alu.c:331-354 | likewise with the sign bit kept; the OR with a mask of ones fills exactly the vacated places; counts beyond the width included where C defines them |
| AluShifts.ShlIs | nemu/src/cpu/alu.c:285-306 | repeated one-place left shifts multiply by 2^c, and CF is the lowest bit that left the limb |
| AluShifts.ShrIs | nemu/src/cpu/alu.c:308-329 | repeated one-place right shifts divide, and CF is bit c-1 |
| AluShifts.SarIs | nemu/src/cpu/alu.c:331-354 | repeated arithmetic shifts divide the signed number by 2^c rounding down |
| AluShifts.ShlFlags | nemu/src/cpu/alu.c:300-303 | all flags of a left shift from the product by 2^c: zero modulo the base, top bit, parity of the low byte, lowest bit that left; OF stays |
| AluShifts.ShrFlags | nemu/src/cpu/alu.c:323-326 | of a right shift: ZF iff the operand is below 2^c, SF clear, PF from the quotient, CF bit c-1; OF stays |
| AluShifts.SarFlags | nemu/src/cpu/alu.c:348-351 | of an arithmetic shift, from the signed operand x: ZF iff 0 <= x < 2^c, SF iff x < 0, PF from x / 2^c rounded down, CF; OF stays |
| MonitorExpr.Monitor.CheckPara | nemu/src/monitor/expr.c:169-184 | the counting loop answers whether the outermost parenthesis encloses the range, and reports an error exactly when the last one was never opened |
| MonitorExpr.Monitor.DominantOp | nemu/src/monitor/expr.c:186-236 | the loop finds the rightmost operator of lowest positive level outside parentheses, or none |
| MonitorExpr.Monitor.EvalRange | nemu/src/monitor/expr.c:240-301 | the recursion over the array computes Eval of the token range, and ends |
| MonitorExpr.Monitor.MakeToken | nemu/src/monitor/expr.c:113-167 | first-match tokenising, with its limits of 32 tokens and 31 characters |
| MonitorExpr.Monitor.Expr | nemu/src/monitor/expr.c:310-324 | tokenise, mark negations and dereferences in place, evaluate |
| Expressions.SplitAtRoot | nemu/src/monitor/expr.c:186-236 | on the printed form of a tree dominant_op finds the root and check_para does not pair |
| Expressions.EvalPrint | nemu/src/monitor/expr.c:240-301 | eval on the printed tokens of any tree gives its value in C (section 6.5 of ISO/IEC 9899:2011) on uint32_t operands if the tree has no logical or and every part is defined, and fails otherwise |
| Expressions.BitwiseBits | nemu/src/monitor/expr.c:285-287 | for all 32 places, the bits of the results of &, ^ and the bitwise or are set iff both, exactly one, at least one of the operands' bits is |
| Expressions.OverClosedIff | nemu/src/monitor/expr.c:169-184 | check_para reports an error exactly on a parenthesised range followed by one more closing parenthesis |
| Expressions.ValueNeedsNesting | nemu/src/monitor/expr.c:169-184 | only token ranges whose parentheses balance have a value; all others end in a failed assertion |
| Expressions.OrFaults | nemu/src/monitor/expr.c:196-197 | a range with a logical or anywhere, its parentheses balanced or not, always ends in a failed assertion |
| Expressions.PrintShape | nemu/src/monitor/expr.c:186-236 | printing never leaves an operator that binds less tightly than asked outside parentheses |
| ExprText.LexRender | nemu/src/monitor/expr.c:113-167 | rendering any tokens with separating blanks and tokenising them gives the same tokens back if there are at most 32 with at most 31 characters each, and fails if not |
| ExprText.LexThen | nemu/src/monitor/expr.c:113-167 | and tokenising goes on with whatever text follows |
| ExprText.SpelledIff | nemu/src/monitor/expr.c:54-57 | numbers, registers and names by the characters they are made of: exactly the texts over 0-9, 0x or 0X and 0-9 a-f A-F, $ and letters, a letter or _ and letters, digits or _ are read in full by their rule |
| ExprText.CanStartIff | nemu/src/monitor/expr.c:52-77 | the beginnings of text that some rule matches, by their first two characters |
| ExprText.UnrecognisedText | nemu/src/monitor/expr.c:159-163 | after tokens that fit the buffer, expr reports text that begins in no such way |
| ExprText.MarkUnmark | nemu/src/monitor/expr.c:303-320 | the marking pass finds every negation and dereference of a token sequence again, and changes nothing else, if and only if each stands where the pass looks for one and no binary minus or times does |
| ExprText.PrintMarked | nemu/src/monitor/expr.c:303-320 | printed trees have bare unary operators only where the pass finds them |
| ExprText.ExprOfText | nemu/src/monitor/expr.c:310-324 | expr(render(t)) is the value of t: printer, tokeniser, marking pass and evaluator together |
| ExprDepartures.NegatedRootIff | nemu/src/monitor/expr.c:217-220 | after an unparenthesised negation of a primary the next operator is evaluated last, as in C, if and only if its level is positive and at most that of binary minus |
| ExprDepartures.NegatedValueIff | nemu/src/monitor/expr.c:186-301 | such an expression has C's value on uint32_t operands if and only if, between sound operands (no logical or, every part defined), the operator is not / or %, or the operands are ones for which negating before and after is the same, all listed; beside other operands the monitor fails and C must leave it undefined |
| ExprDepartures.NegatedText | nemu/src/monitor/expr.c:303-320 | the text of such an expression is read as a negation |
| ExprDepartures.NegationMisread | nemu/src/monitor/expr.c:217-220 | - 6 / 4 gives 0xFFFFFFFF, where C on uint32_t operands has 0x3FFFFFFE |
| ExprDepartures.UnmarkedMinusIff | nemu/src/monitor/expr.c:303-320 | e + -r, e - -r, e << -r and e >> -r without parentheses have C's value always for +, << and >>, and for - if and only if r is 0 or 2^31, between sound operands |
| ExprDepartures.UnmarkedStarIff | nemu/src/monitor/expr.c:303-320 | e + *r, e - *r, e << *r and e >> *r without parentheses are evaluated as e, which is C's value if and only if r points to a zero, or 0 is shifted by less than 32 places, between sound operands |
| ExprDepartures.UnmarkedText | nemu/src/monitor/expr.c:303-308 | of all binary operators exactly + - << and >> are the ones after which the pass leaves a minus or star binary |
| ExprDepartures.StackedEval | nemu/src/monitor/expr.c:303-320 | a negation or dereference right after another unary operator fails, except that - *r is 0 |
| ExprDepartures.StackedText | nemu/src/monitor/expr.c:303-308 | because the pass leaves it binary |
| ExprDepartures.UnmarkedMinus | nemu/src/monitor/expr.c:303-320 | 5 - - 3 gives 2, where C has 8 |
| ExprDepartures.OrNeverWorks | nemu/src/monitor/expr.c:196-197 | 1 logical or 0 fails, where C has 1 |
| ExprDepartures.NoShortCircuit | nemu/src/monitor/expr.c:275-294 | 0 && 1 / 0 fails, where C does not look at the right operand |
| ExprText.DecimalRoundTrip | nemu/src/monitor/expr.c:245-248 | the decimal text of any number is a number token; it evaluates to the number below 2^31, from where on sscanf promises nothing |
| ExprText.HexadecimalRoundTrip | nemu/src/monitor/expr.c:249-250 | likewise the hexadecimal text, with small letters or capitals, below 2^32 |
| ExprText.RegisterValue | nemu/src/monitor/expr.c:251-263 | a register token has the value of that register if it is one of the nine, and fails if not |
| Breakpoints.Manager.constructor | nemu/src/monitor/breakpoint.c:13-26 | all 32 nodes on the free list, memory untouched |
| Breakpoints.Manager.SetBreakpoint | nemu/src/monitor/breakpoint.c:51-64 | takes an unused node, plants INT3, remembers the byte; fails exactly when all 32 are in use |
| Breakpoints.Manager.DeleteBreakpoint | nemu/src/monitor/breakpoint.c:86-112 | removes exactly the breakpoint with that number, wherever it is on the list, and writes its byte back |
| Breakpoints.Manager.DeleteFrom | nemu/src/monitor/breakpoint.c:114-122 | the recursion frees a whole list behind its rest and restores the bytes oldest first |
| Breakpoints.Manager.DeleteAllBreakpoints | nemu/src/monitor/breakpoint.c:124-128 | all nodes free, all bytes written back |
| Breakpoints.Manager.ResumeBreakpoints | nemu/src/monitor/breakpoint.c:168-180 | plants INT3 at every active address, enables those nodes and leaves the lists alone |
| Breakpoints.Manager.MaskBreakpoints | nemu/src/monitor/breakpoint.c:182-193 | writes the original byte back at every active address |
| Breakpoints.TakenConsistent | nemu/src/monitor/breakpoint.c:28-36 | the lists stay chains that partition the pool, in_use marks the active one, and the new entry is first |
| Breakpoints.ReleasedConsistent | nemu/src/monitor/breakpoint.c:38-49 | unlinking the k-th node and pushing it on the free list keeps all of that, and forgets only that entry |
| BreakpointRuns.StepKeepsOverlay | nemu/src/monitor/breakpoint.c:51-193 | each call keeps memory equal to the original outside planted bytes, and every entry remembers its original byte |
| BreakpointRuns.RunKeepsOverlay | nemu/src/monitor/breakpoint.c:51-193 | so does every run on distinct addresses |
| BreakpointRuns.DeleteAllRestores | nemu/src/monitor/breakpoint.c:114-128 | after any run that sets no address while a breakpoint is active on it, delete_all_breakpoint restores memory exactly |
| BreakpointRuns.DeleteAllIff | nemu/src/monitor/breakpoint.c:51-193 | after any run at all it does so if and only if at every address the newest breakpoint remembers the original byte, or memory holds it where there is none |
| BreakpointRuns.RunKeepsClean | nemu/src/monitor/breakpoint.c:51-193 | after any run memory and the remembered bytes hold nothing but original bytes and INT3 |
| BreakpointRuns.LeftBehindIff | nemu/src/monitor/breakpoint.c:114-128 | so delete_all_breakpoint leaves behind at most INT3 bytes, and none if and only if no newest breakpoint remembers an INT3 that was not there from the start |
| BreakpointRuns.MaskThenResume | nemu/src/monitor/breakpoint.c:168-193 | masking shows the original program, resuming after it plants INT3 at every active address |
| BreakpointRuns.MaskThenResumeIff | nemu/src/monitor/breakpoint.c:168-193 | from any state, masking and resuming changes nothing if and only if INT3 was planted at every active address |
| BreakpointRuns.SetTwiceIff | nemu/src/monitor/breakpoint.c:51-64 | for runs of sets alone: restored if and only if every address set twice held INT3 from the start |
| LinkLists.LinkList.New | game/include/adt/linklist.h:48-66 | hands out a node nobody holds, cleared; its assertion fails exactly when all nodes are out; the initialising branch leaves a free head that is never null again |
| LinkLists.LinkList.Insert | game/include/adt/linklist.h:77-86 | links a node between two neighbours at any place of the list |
| LinkLists.LinkList.Remove | game/include/adt/linklist.h:87-95 | links a node out, its own links left as they were |
| LinkLists.LinkList.Free | game/include/adt/linklist.h:96-100 | pushes it on the free list |
| LinkLists.InsertedReady | game/include/adt/linklist.h:77-86 | after insert the list is doubly linked, acyclic and disjoint from the free list |
| LinkLists.RemovedReady | game/include/adt/linklist.h:87-95 | so it is after remove |
| LinkLists.RunReady | game/include/adt/linklist.h:45-100 | so it is after every run of new, insert, remove and free, and the initialising branch runs once |
| LinkLists.NewIsUnowned | game/include/adt/linklist.h:48-66 | no node in use is handed out twice, and the end mark never |
| TypingGame.Game.PressKey | game/src/typing/keyboard.c:12-22 | presses exactly the key with that scan code |
| TypingGame.CodesDiffer | game/src/typing/keyboard.c:5-8 | no two keys share a scan code |
| Letters.KeyboardRows | game/src/typing/keyboard.c:5-8 | the codes run along the three rows of the keyboard, from 16 at q, 30 at a and 44 at z |
| Letters.BurstIs | game/src/typing/keyboard.c:12-22 | after a burst a key is down iff it was before or its code came, and the clock has gone on by the timer interrupts in it |
| TypingGame.Game.Deliver | game/src/typing/keyboard.c:44-48 | where interrupts may arrive, the clock and the key flags afterwards are those that the burst that came makes of them; nothing comes while they are off |
| TypingGame.Game.CreateNewLetter | game/src/typing/effect.c:32-50 | a new letter in front of the others, its key released; fails exactly with 1000 letters on the screen |
| Letters.EveryLetter | game/src/typing/effect.c:45-48 | each of the 26 letters can appear in each of the 38 columns, at the top and falling by 0.1 |
| TypingGame.Game.Drop | game/src/typing/effect.c:66-69 | unlinking, freeing and moving the head on keeps the list in order without the node |
| TypingGame.Game.UpdateLetterPos | game/src/typing/effect.c:53-73 | although it frees nodes while walking, exactly the letters still in bounds are left, in their order, each moved on once; hit and miss grow by the letters that left through the top and the bottom |
| Letters.LifetimeIff | game/src/typing/effect.c:59-60 | a falling letter stays exactly until it is 1921 ticks old, a rising one exactly while it is 3.0 or more from the top; what stays has moved by its speed and is otherwise unchanged |
| Letters.LeaversCounted | game/src/typing/effect.c:60-65 | misses are the falling letters of that age, hits the rising ones that near the top |
| Letters.NobodyLost | game/src/typing/effect.c:53-73 | letters left, hits and misses add up to the letters before |
| TypingGame.Game.UpdateKeypress | game/src/typing/effect.c:76-102 | turns round the lowest falling letter whose key is down, releases the key, counts one shot and leaves interrupts off; without such a letter changes nothing and turns them on |
| TypingGame.Game.ShootAll | game/src/typing/game.c:56-57 | the loop ends after at most 26 hits because interrupts stay off, and its outcome is independent of the order: with the keys that were down before and those pressed until interrupts went off, every pressed key turns round the lowest letter of its kind and is released, and each hit is one shot |
| Letters.ShotKeepsVolley | game/src/typing/effect.c:83-97 | one hit is one step towards that outcome |
| Letters.VolleyAnswers | game/src/typing/effect.c:76-102 | of the letters in flight, for every key that is down and some falling letter with it: exactly the lowest such letter rises at 3.0, otherwise unchanged, no other letter with it changes, and the key is up; other keys and their letters stay as they are |
| Letters.TargetIff | game/src/typing/effect.c:83-91 | one call picks the lowest of all falling letters whose keys are down, and none iff there is none |
| Letters.HitsAreShots | game/src/typing/effect.c:60-65 | only letters that were shot leave through the top, and they leave no other way |
| Letters.FewLetters | game/src/typing/effect.c:11 | never more than 100 letters are on the screen, so the pool of 1000 is never used up |
| Letters.OldestIsLowest | game/src/typing/effect.c:82-91 | among falling letters the oldest is the lowest |
| Letters.SurvivorsInFlight | game/src/typing/effect.c:53-73 | after every update each letter is exactly where the updates it fell and rose put it |
| Letters.OnCourse | game/src/typing/game.c:62-74 | through any number of ticks, whatever interrupts come and letters appear, a letter goes on as it was going until it reaches an edge |
| Letters.RoundFollows | game/src/typing/game.c:54-92 | in a round of n ticks the letter hit by a key that was down rises by 3.0 n from where the volley found it, and every other falling letter falls by 0.1 n |
| TypingGame.Game.CatchUp | game/src/typing/game.c:62-92 | letters, score, key flags and clock are the fold of one creation and one move per missed tick, each tick once and in order, with the interrupts that came between; a redraw is due iff one of the ticks is a multiple of 3; the frame rate is measured at every multiple of 50, as 2 n + 1 up to 30 for n frames since the last time |
| TypingGame.Game.OneRound | game/src/typing/game.c:42-98 | one round keeps now <= tick, so its assertion holds, deals with exactly the ticks counted when it looks, ends with interrupts on, and does to letters, score, key flags, shots and clock exactly what the volley and the ticks do with the interrupts that came; frames drawn and frame rate are those the ticks give |
| TypingGame.Game.MainLoop | game/src/typing/game.c:36-100 | in every run the letters, score, key flags, shots and clock are a function of the interrupts and random numbers that came; ceil(now / 20) letters were made, each is on the screen or counted once, hits plus rising letters are the shots fired, and new never fails |
| Paging.Machine.InitPage | kernel/src/memory/kvm.c:12-46 | the nested loops fill the directory and all 32 tables and change nothing else; the walk then sends va below 128 MB to itself, the 128 MB above 0xC0000000 to va - 0xC0000000, and nothing else anywhere |
| Paging.KernelWalk | kernel/src/memory/kvm.c:25-35 | those tables and the two-level walk (Intel 80386 Programmer's Reference Manual, section 5.2) give that translation |
| Paging.Machine.InitMm | kernel/src/memory/mm.c:25-37 | run on virtual addresses, it clears the user directory, copies the 32 upper entries, leaves the kernel's mapping alone and changes nothing else |
| Paging.Machine.CreateVideoMapping | kernel/src/memory/vmem.c:12-32 | storing through the kernel's own mapping, and changing only one directory entry and the table, it makes the user walk the identity on the first 4 MB, the kernel's upper window, and nothing elsewhere |
| Paging.UserWalk | kernel/src/memory/vmem.c:22-31 | those user tables give that translation |
| Interrupts.Board.RaiseIntr | nemu/src/device/i8259_pic.c:16-37 | the lines since the last acknowledgement gain this one, and the pending vector is 32 plus the highest of them |
| Interrupts.Board.AckIntr | nemu/src/device/i8259_pic.c:39-52 | no line counts as raised any more, nothing is pending and cpu.intr is clear |
| Interrupts.Board.DoIntr | nemu/src/cpu/cpu.c:144-155 | with devices raising lines between all its steps: it runs iff an interrupt is pending and enabled, its assertion holds, it delivers 32 plus the highest line raised before the query, those present at entry among them, and follows the state machine of the run laws |
| Interrupts.Board.QueryIntrNo | nemu/src/device/i8259_pic.c:11-14 | 32 plus the highest line raised since the last acknowledgement, or NO_INTR if there is none |
| Interrupts.RunKeepsInv | nemu/src/cpu/cpu.c:144-155 | in every interleaving of raises with the CPU's steps the pending vector is 32 plus the highest line raised since the last acknowledgement |
| Interrupts.AssertNeverFails | nemu/src/cpu/cpu.c:144-155 | from the initial state do_intr's assertion never fails, and cpu.intr is set iff a vector is pending |
| Interrupts.OneDelivery | nemu/src/cpu/cpu.c:144-155 | in every interleaving at most one interrupt is delivered until the program sets IF again, and none while IF is clear |
| Interrupts.NothingBeforeSti | nemu/src/cpu/cpu.c:23 | after a reset none is delivered before the program sets IF for the first time |
| Interrupts.RaisesAreAccountedFor | nemu/src/device/i8259_pic.c:16-52 | every raise belongs to exactly one window between acknowledgements, in order |
| Interrupts.NoRaiseLostIff | nemu/src/device/i8259_pic.c:16-52 | after any run every line raised in a closed window was delivered if and only if each window saw exactly one line, before its query |
| Interrupts.HighestDeliveredIff | nemu/src/device/i8259_pic.c:16-52 | after any run every closed window delivered its highest line if and only if none saw a higher line between query and acknowledgement than before the query |
| Interrupts.LostBeforeAck | nemu/src/cpu/cpu.c:150-152 | from every reachable state between query and acknowledgement, whatever lines are raised then are dropped |
| Interrupts.RaiseAfterQueryIsLost | nemu/src/cpu/cpu.c:150-152 | the smallest run in which a higher line is never delivered |

## Left out

- AluShifts.AluShl: operands for which one of the C shifts is undefined are excluded: counts above the width or of 32 and more, and a count of 0 at width 32. AluSar: counts of 0 and of 32 and more, and counts above the width with the sign bit set. AluShr: counts of 0 and of 32 and more.
- Expressions.EvalPrint: shifts by 32 or more, undefined reads, unknown symbols and numbers beyond what sscanf defines count as failures, as does everything an assertion stops.
- Breakpoints.Manager.SetBreakpoint: a node's type field and watchpoints are not part of this model; the nodes are breakpoints only.
- BreakpointRuns.StepKeepsOverlay: speaks of sets on addresses without an active breakpoint, as DeleteAllRestores does; what a second set does to the final memory is in DeleteAllIff and LeftBehindIff.
- MonitorExpr.Monitor.MakeToken: a 33rd token, which the C code would write past its array, counts as a failure.
- Interrupts.Board.RaiseIntr: the early return when the emulator stops while the mutex is held is not modelled; each call is one atomic step.
- Interrupts.RunKeepsInv: do_intr goes through an interrupt gate, which clears IF; a trap gate is that step followed by setting IF. The stack writes of raise_intr are not modelled.
- Letters.FewLetters: positions and speeds are exact reals where the game adds 0.1 in float, so the bound of 100 letters, far below the pool's 1000, does not include rounding.
- Letters.LifetimeIff: for the same reason the age of 1921 ticks, and the positions of the other laws about letters, are those of exact arithmetic.
- TypingGame.Game.MainLoop: the timer's int does not wrap; random numbers and interrupts are arbitrary, the latter at the points between the loop's steps. Drawing is left out.
- LinkLists.LinkList.New: the fields a list is declared with are kept in an array of the user's under the same node number, not inside the node.
- Paging.Machine.InitPage: the arrays are page-aligned, inside physical memory and apart from each other, as the linker places them.
- Paging.Machine.InitMm: memory is a map of 32-bit words; memset and memcpy are loops over words. TLB, cache and segmentation are not modelled.
- The x87 register stack, fpu_cmp and fpu_cmpi: moves between registers, and comparisons done in host floats.
- alu_mul, alu_imul, alu_div, alu_idiv, alu_mod, alu_imod and the logic operations: single expressions, or flags whose bounds are one bit wide of the operand.
- The conditions o, no, p, np, s, ns, ne, na and ecxz: a flag or its negation each.
- exec's handshake with the breakpoint instruction: the handler of INT3 is not part of this model.
- init_segment, mm_brk, the loader, symbol lookup, the readline interface and all devices other than the interrupt controller: input and output.
- The PAL game and the test programs: drawing, fixed data or textbook code.

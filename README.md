# Static-analysis course domains (scsr-2024), modelled in Dafny

This project models the abstract domains and dataflow elements of the
scsr-2024 course repository. They are written in Java against the LiSA
static-analysis library. The project also models the bookkeeping of the
repository's `tester.py` grading script.

Modules:

- `JavaInt`: Java `int` arithmetic (wrap-around modulo 2^32, division that
  truncates toward zero).
- `Expressions`: the symbolic expressions the domains evaluate, namely constants,
  identifiers, and unary, binary and ternary expressions, plus LiSA's `Skip`
  and `PushAny`.
- `ParityValues`, `ParitySolution`, `Parity`: the parity lattice
  (TOP, BOTTOM, EVEN, ODD). Two evaluators are modelled: the reference solution
  and the student version with its own addition, subtraction and
  multiplication tables.
- `TaintValues`, `DefiniteTaintSolution`, `DefiniteTaint`, `Taint`: the
  definite-taint lattice (TOP, TAINTED, CLEAN, BOTTOM) in the reference and
  student versions, and the three-element taint chain.
- `Intervals`: intervals over extended integers. It covers glb, lub,
  lessOrEqual, compareTo, constant and binary evaluation, widening and
  narrowing.
- `Environments`: LiSA's value environment. It maps identifiers to lattice
  values and has top and bottom environments.
- `UpperBounds`: sets of strict upper-bound variables, with glb (union), lub
  (intersection), widening, `add` and `assumeBinaryExpression`.
- `Pentagons`: the reduced product of upper bounds and intervals.
  - `Closure` is an imperative loop proved against the specification function
    `ReinforceAll`, as are `LubAux`, `LessOrEqualAux` and `Assign`.
  - The interval and upper-bound environment results that the library computes
    (`lub`, `lessOrEqual`, `assign` of the component environments) are
    parameters.
- `ConstantFacts`, `CPropSolution`, `CProp`: constant propagation as
  `(id, constant)` facts.
  - Covers evaluation of an expression under the facts, and `gen` and `kill`.
  - Soundness is stated against a reference concrete semantics, `Concrete`.
- `AvailableExpressions`: the variables of an expression, `filter`, `gen` and
  `kill`.
- `Tester`: the row table `tester.py` builds per remote branch. It covers
  parsing of the `git for-each-ref` output, the branch id, and the gated
  checkout, merge, assemble and test stages.
  - The table is a class whose methods append rows and set the
    compile and test flags.
  - Process exit codes are a parameter.
  - The entries the script makes under `eval-logs/` are tracked, so a log
    that cannot be opened, or an output copy whose target exists, stops the
    script before `report.csv` is written.

Every LiSA wrapper (`lub`, `glb`, `lessOrEqual`, `widening`) is modelled as
the library defines it. Each one returns directly when an operand is
bottom or top, or when the operands are equal. Otherwise it calls the
domain's `*Aux` method.

## Model

| member | source | states |
|---|---|---|
| JavaInt.Wrap | src/main/java/it/unive/scsr/CPropSolution.java:116-121 | the 32-bit result is congruent to the exact value modulo 2^32 and equals it when it is in range |
| JavaInt.WrapKeepsParity | src/main/java/it/unive/scsr/CPropSolution.java:116-121 | wrap-around never changes the parity of a result |
| JavaInt.TruncDiv | src/main/java/it/unive/scsr/CPropSolution.java:122-123 | Java division: the remainder is smaller than the divisor in magnitude and has the dividend's sign |
| ParityValues.ParityOf | src/main/java/it/unive/scsr/ParitySolution.java:84-94 | the parity of an integer describes it and is never TOP |
| ParityValues.ArithmeticParity | src/main/java/it/unive/scsr/ParitySolution.java:108-129 | under 32-bit wrap-around, a sum or difference is even iff the operands have the same parity, and a product is even iff either operand is |
| ParityValues.NegationParity | src/main/java/it/unive/scsr/ParitySolution.java:97-105 | negation keeps parity |
| ParitySolution.LubIsLeastUpperBound | src/main/java/it/unive/scsr/ParitySolution.java:60-71 | lub, built on the functions LubAux and LessOrEqualAux, is the least upper bound under lessOrEqual; two distinct non-bottom parities join to TOP |
| ParitySolution.EvalNonNullConstant | src/main/java/it/unive/scsr/ParitySolution.java:84-94 | an integer constant maps to a non-TOP parity describing it; any other constant maps to TOP |
| ParityValues.EvalUnaryExpression | src/main/java/it/unive/scsr/ParitySolution.java:97-105 | negation returns the argument's parity and every other operator returns TOP; the result describes the wrapped negation of every integer the argument describes (Parity.java:109-113 is the same code) |
| ParityValues.NegationIsExact | src/main/java/it/unive/scsr/ParitySolution.java:97-105 | for negation the result describes exactly the wrapped negations of the integers the argument describes, so no smaller parity describes them all |
| ParitySolution.EvalBinaryExpression | src/main/java/it/unive/scsr/ParitySolution.java:108-129 | a TOP operand or a non-arithmetic operator yields TOP |
| ParitySolution.BinaryTable | src/main/java/it/unive/scsr/ParitySolution.java:108-129 | for non-TOP operands, + and - give EVEN iff the operands are equal and ODD otherwise; x gives EVEN iff either operand is EVEN and ODD otherwise |
| ParitySolution.BinarySymmetric | src/main/java/it/unive/scsr/ParitySolution.java:108-129 | binary evaluation is symmetric in its operands |
| ParitySolution.BinarySound | src/main/java/it/unive/scsr/ParitySolution.java:108-129 | for arithmetic operators, the abstract result describes the wrapped 32-bit result of any described operands |
| Parity.LubIsLeastUpperBound | src/main/java/it/unive/scsr/Parity.java:60-67 | lub, built on the functions LubAux and LessOrEqualAux, is the least upper bound; distinct non-bottom parities join to TOP |
| Parity.EvalNonNullConstant | src/main/java/it/unive/scsr/Parity.java:91-101 | an integer constant maps to a non-TOP parity describing it; other constants map to TOP |
| Parity.EvalNullConstant | src/main/java/it/unive/scsr/Parity.java:104-106 | the null constant is abstracted as a parity describing 0 |
| Parity.EvalBinaryExpression | src/main/java/it/unive/scsr/Parity.java:116-162 | non-arithmetic operators give TOP; EVEN + r = r; EVEN x r = EVEN; ODD x r = r |
| Parity.AdditiveRows | src/main/java/it/unive/scsr/Parity.java:117-146 | the subtraction table equals the addition table; the ODD row flips parity; a TOP or BOTTOM left operand gives TOP |
| Parity.MultiplicativeRows | src/main/java/it/unive/scsr/Parity.java:147-161 | with a TOP or BOTTOM left operand, the product is EVEN only for TOP x EVEN and TOP in every other case |
| Parity.BinarySound | src/main/java/it/unive/scsr/Parity.java:116-162 | for arithmetic operators, the abstract result describes the wrapped result of any described operands |
| Parity.AdditionNotSymmetric | src/main/java/it/unive/scsr/Parity.java:117-131 | the student addition table is not symmetric: EVEN + BOTTOM = BOTTOM but BOTTOM + EVEN = TOP |
| DefiniteTaintSolution.LubIsLeastUpperBound | src/main/java/it/unive/scsr/DefiniteTaintSolution.java:38-51 | lub, built on the functions LubAux and LessOrEqualAux, is the least upper bound; widening coincides with lub on the aux level |
| DefiniteTaintSolution.TaintQueriesExclusive | src/main/java/it/unive/scsr/DefiniteTaintSolution.java:74-81 | isAlwaysTainted holds exactly for values that admit only tainted data, isPossiblyTainted exactly for those that admit both, and never both |
| DefiniteTaintSolution.EvalBinaryExpression | src/main/java/it/unive/scsr/DefiniteTaintSolution.java:84-106 | TAINTED iff both operands are TAINTED; CLEAN iff neither is TAINTED nor TOP; otherwise TOP |
| DefiniteTaintSolution.EvalTernaryExpression | src/main/java/it/unive/scsr/DefiniteTaintSolution.java:109-128 | TAINTED iff all three operands are TAINTED; CLEAN iff none is TAINTED or TOP |
| DefiniteTaintSolution.BinarySymmetric | src/main/java/it/unive/scsr/DefiniteTaintSolution.java:84-106 | binary evaluation is symmetric |
| DefiniteTaintSolution.TernaryIsNestedBinary | src/main/java/it/unive/scsr/DefiniteTaintSolution.java:109-128 | ternary evaluation equals two nested binary evaluations |
| DefiniteTaintSolution.EvaluationSound | src/main/java/it/unive/scsr/DefiniteTaintSolution.java:84-128 | the result describes the disjunction of the operands' taint for any described operands |
| DefiniteTaint.LubIsLeastUpperBound | src/main/java/it/unive/scsr/DefiniteTaint.java:39-50 | lub, built on the functions LubAux and LessOrEqualAux, is the least upper bound; wideningAux always returns TOP |
| DefiniteTaint.TopIsNotAlwaysTainted | src/main/java/it/unive/scsr/DefiniteTaint.java:77-85 | TOP is possibly but not always tainted; TAINTED is always but not possibly tainted; no value is both |
| DefiniteTaint.EvalBinaryExpression | src/main/java/it/unive/scsr/DefiniteTaint.java:87-113 | a possibly tainted operand gives TOP; BOTTOM exactly when an operand is bottom and none is possibly tainted; TAINTED and CLEAN only for arithmetic operators, from an always tainted operand or two clean ones |
| DefiniteTaint.ArithmeticCases | src/main/java/it/unive/scsr/DefiniteTaint.java:87-113 | for arithmetic operators and non-bottom, not possibly tainted operands: an always tainted operand gives TAINTED, two clean ones give CLEAN |
| DefiniteTaint.BinarySymmetric | src/main/java/it/unive/scsr/DefiniteTaint.java:87-113 | binary evaluation is symmetric |
| DefiniteTaint.BinarySound | src/main/java/it/unive/scsr/DefiniteTaint.java:87-113 | for arithmetic operators, the result describes the disjunction of the operands' taint |
| Taint.TopIsGreatest | src/main/java/it/unive/scsr/Taint.java:41-49 | top() is above every element and bottom() below every element; only top() is above top() and only bottom() below bottom() |
| Taint.ChainLattice | src/main/java/it/unive/scsr/Taint.java:31-63 | lub, built on the functions LubAux and LessOrEqualAux, is the least upper bound; the lattice is a chain; lubAux and wideningAux both return top |
| Taint.TaintQueries | src/main/java/it/unive/scsr/Taint.java:76-84 | no value is always tainted; possibly tainted exactly at the top |
| Environments.Put | src/main/java/it/unive/scsr/UpperBounds.java:181 | putState yields a mapped environment whose keys are the old keys plus the new one |
| Environments.GetPut | src/main/java/it/unive/scsr/UpperBounds.java:181 | getState reads back the value just put and, on a non-bottom environment, other keys are unchanged |
| Intervals.Min | src/main/java/it/unive/scsr/Intervals.java:112 | the minimum of two extended integers is one of them and below both |
| Intervals.Max | src/main/java/it/unive/scsr/Intervals.java:113 | the maximum of two extended integers is one of them and above both |
| Intervals.TopAndBottomMeaning | src/main/java/it/unive/scsr/Intervals.java:151-164 | TOP contains every integer; a well-formed interval is bottom iff it contains none |
| Intervals.LessOrEqualIsInclusion | src/main/java/it/unive/scsr/Intervals.java:138-141 | lessOrEqualAux holds iff every integer of the first interval lies in the second |
| Intervals.GlbAux | src/main/java/it/unive/scsr/Intervals.java:104-118 | the result is never bottom |
| Intervals.GlbAuxIsHull | src/main/java/it/unive/scsr/Intervals.java:104-118 | glbAux as written contains both operands (the hull), so it is not a lower bound |
| Intervals.LubAux | src/main/java/it/unive/scsr/Intervals.java:121-135 | the result is never bottom |
| Intervals.Make | src/main/java/it/unive/scsr/Intervals.java:70-74 | the interval built from two bounds has exactly those two bounds, in order, and keeps them as given when they already are |
| Intervals.LubAuxIsIntersection | src/main/java/it/unive/scsr/Intervals.java:121-135 | for overlapping operands lubAux as written contains exactly the common integers (the intersection); for disjoint operands, exactly the integers of the gap between them |
| Intervals.LubAuxOfDisjoint | src/main/java/it/unive/scsr/Intervals.java:121-135 | lubAux([0,1],[5,6]) = [1,5], which holds 3, an integer of neither operand |
| Intervals.LubAuxNotUpperBound | src/main/java/it/unive/scsr/Intervals.java:121-135 | lubAux([0,3],[1,2]) = [1,2], which is not above [0,3] |
| Intervals.IntendedLubIsLeastUpperBound | src/main/java/it/unive/scsr/Intervals.java:121-135 | the hull is the least upper bound under lessOrEqualAux |
| Intervals.CompareTo | src/main/java/it/unive/scsr/Intervals.java:175-188 | bottom sorts first, TOP after everything else; the IntInterval comparison is reached exactly when this is neither bottom nor TOP and the other is not bottom |
| Intervals.CompareToLeavesTopUnordered | src/main/java/it/unive/scsr/Intervals.java:184-185 | [0,5] compared with TOP is left to the IntInterval comparison, while TOP compared with [0,5] is 1 |
| Intervals.IntendedCompareToAntisymmetric | src/main/java/it/unive/scsr/Intervals.java:175-188 | with the check on the other operand, comparisons involving TOP or bottom are antisymmetric |
| Intervals.EvalNonNullConstant | src/main/java/it/unive/scsr/Intervals.java:193-202 | an integer constant n gives an interval containing exactly n; other constants give TOP |
| Intervals.EvalBinaryExpression | src/main/java/it/unive/scsr/Intervals.java:205-244 | a bottom operand gives bottom; operators other than + and - give TOP; every result has its bounds in order |
| Intervals.AdditionSound | src/main/java/it/unive/scsr/Intervals.java:211-222 | the sum interval contains x + y for every x and y of the operands |
| Intervals.AdditionExact | src/main/java/it/unive/scsr/Intervals.java:211-222 | on finite operands every integer of the sum interval is some x + y with x and y in the operands |
| Intervals.SubtractionSoundIff | src/main/java/it/unive/scsr/Intervals.java:224-235 | on finite operands the as-written difference holds every x - y exactly when one operand is a single number |
| Intervals.SubtractionUnsound | src/main/java/it/unive/scsr/Intervals.java:224-235 | [0,1] - [0,10] evaluates to [-9,0], which misses 0 - 10 |
| Intervals.IntendedSubtractionSound | src/main/java/it/unive/scsr/Intervals.java:224-235 | [l1 - h2, h1 - l2] contains x - y for every x and y of the operands |
| Intervals.WideningAux | src/main/java/it/unive/scsr/Intervals.java:266-283 | the result is ordered; for an ordered first operand, a growing high bound goes to +oo and a shrinking low bound to -oo, and finite bounds are the old ones |
| Intervals.WideningIsStableUpperBound | src/main/java/it/unive/scsr/Intervals.java:266-283 | widening is above both operands and widening again with the same operand changes nothing |
| Intervals.NarrowingAux | src/main/java/it/unive/scsr/Intervals.java:288-295 | the result's bounds are this operand's finite bounds and the other operand's bounds in place of infinite ones, put in order |
| Intervals.NarrowingBetween | src/main/java/it/unive/scsr/Intervals.java:288-295 | narrowing a by b, with b below a, gives a well-formed interval between b and a |
| UpperBounds.TopIsNotBottom | src/main/java/it/unive/scsr/UpperBounds.java:118-130 | TOP and the empty set are distinct, and each is recognised by its own predicate only |
| UpperBounds.GlbAux | src/main/java/it/unive/scsr/UpperBounds.java:93-97 | glbAux holds exactly the bounds of either operand (union) |
| UpperBounds.LubAux | src/main/java/it/unive/scsr/UpperBounds.java:100-104 | lubAux holds exactly the bounds common to both operands (intersection) |
| UpperBounds.AuxLatticeLaws | src/main/java/it/unive/scsr/UpperBounds.java:93-109 | under reverse inclusion, lubAux is the least upper bound and glbAux the greatest lower bound |
| UpperBounds.GlbIsUnion | src/main/java/it/unive/scsr/UpperBounds.java:93-97 | through the library wrapper, glb of non-bottom operands is the union; a bottom operand gives bottom |
| UpperBounds.WideningAux | src/main/java/it/unive/scsr/UpperBounds.java:210-214 | the result is the second operand iff it contains every bound of the first, and TOP otherwise |
| UpperBounds.WideningOnAscent | src/main/java/it/unive/scsr/UpperBounds.java:210-214 | a strict ascent jumps to TOP |
| UpperBounds.TopContainsNothing | src/main/java/it/unive/scsr/UpperBounds.java:225-228 | contains is false on TOP, whose set is null |
| UpperBounds.Add | src/main/java/it/unive/scsr/UpperBounds.java:237-244 | the result contains id and exactly the other bounds of the input, and is neither TOP nor bottom; TOP or bottom input gives {id} |
| UpperBounds.AddIsGlbWithSingleton | src/main/java/it/unive/scsr/UpperBounds.java:237-244 | on a non-bottom input add equals glb with {id}; on bottom the two differ |
| UpperBounds.AssumeBinaryExpression | src/main/java/it/unive/scsr/UpperBounds.java:168-207 | non-identifier operands or other operators leave the environment alone; after x < y the bounds of x are bottom exactly when x's or y's were, and otherwise exactly y together with the old bounds of x and of y; x > y mirrors it; == gives both the same meet; <= and >= meet without the singleton |
| UpperBounds.StrengthenedByGlb | src/main/java/it/unive/scsr/UpperBounds.java:178-181 | glb(glb(x, y), {y}) stored for x is bottom exactly when x's or y's bounds were, and otherwise holds exactly y and the old bounds of x and of y |
| Pentagons.TopAndBottom | src/main/java/it/unive/scsr/Pentagons.java:55-74 | TOP and bottom are the pairs of top and of bottom environments; mixed pairs are neither |
| Pentagons.CollectAbove | src/main/java/it/unive/scsr/Pentagons.java:276-280 | the loop collects exactly the candidates whose interval lies strictly above the key's |
| Pentagons.ReinforceAllContents | src/main/java/it/unive/scsr/Pentagons.java:281-284 | reinforcing with closure sets adds each set to its key unless that key's bounds are bottom, adds nothing else, keeps bottomness, and leaves keys without a set unchanged |
| Pentagons.Closure | src/main/java/it/unive/scsr/Pentagons.java:270-289 | the loop over the interval keys leaves the intervals alone and reinforces the bounds with every closure set |
| Pentagons.ClosureProperties | src/main/java/it/unive/scsr/Pentagons.java:270-289 | after closure, id2 is a bound of a distinct id1 whose interval lies strictly below it (unless id1's bounds were bottom); no new self-bound appears; no other bound is added |
| Pentagons.ReinforceFrom | src/main/java/it/unive/scsr/Pentagons.java:103-113 | one lub loop reinforces the bounds with the confirmed bounds of the other operand, reading the intervals only at the visited (key, bound) pairs; a bottom start is accepted when the loop puts nothing |
| Pentagons.LubAux | src/main/java/it/unive/scsr/Pentagons.java:99-128 | the intervals are the component lub; the bounds are the component lub reinforced by both loops in order; each interval environment need be readable only at the pairs of the other's bounds, and a bottom bounds lub is accepted when neither loop puts anything |
| Pentagons.PairsReadableOnBottomIntervals | src/main/java/it/unive/scsr/Pentagons.java:103-125 | readable intervals satisfy the pair-wise requirement; lubAux accepts a pentagon with bottom intervals and non-bottom bounds joined with one without bounds, and bottom bounds visit no pair |
| Pentagons.LubKeepsConfirmedBounds | src/main/java/it/unive/scsr/Pentagons.java:99-128 | a bound of either operand that the other's intervals confirm survives lub, as does every bound of the component lub |
| Pentagons.LessOrEqualAux | src/main/java/it/unive/scsr/Pentagons.java:131-149 | the early-exit loops return true iff the intervals are ordered and every bound of other is a bound of this or is confirmed by this's intervals; only the intervals of pairs this does not already know must be non-null |
| Pentagons.LessOrEqualReflexive | src/main/java/it/unive/scsr/Pentagons.java:131-149 | every pentagon is below itself |
| Pentagons.MeetPositiveNotBottom | src/main/java/it/unive/scsr/Pentagons.java:171-172 | meeting a non-bottom interval with [1, +oo] never gives bottom |
| Pentagons.Assign | src/main/java/it/unive/scsr/Pentagons.java:152-183 | assignment is the closure of the component results after the x - y and x - c refinements; it requires only what closure needs of the refined pentagon |
| Pentagons.PreClosureReadable | src/main/java/it/unive/scsr/Pentagons.java:152-183 | readable component results stay readable through the refinements, so closure can run |
| Pentagons.AssignOnBottom | src/main/java/it/unive/scsr/Pentagons.java:152-183 | on bottom component results neither refinement creates an interval, so closure runs and leaves the bounds unchanged |
| Pentagons.AssignDifferenceOfVariables | src/main/java/it/unive/scsr/Pentagons.java:167-173 | for r = x - y with x a bound of y, r's interval becomes glb(i, [1, +oo]): exactly [1, +oo] from TOP, and otherwise it keeps every value of i |
| Pentagons.AssignDifferenceWithConstant | src/main/java/it/unive/scsr/Pentagons.java:174-176 | for r = x - c, after closure x and every old bound of x are bounds of r |
| Pentagons.ConstantDifferenceUnsound | src/main/java/it/unive/scsr/Pentagons.java:174-176 | for r = x - 0 the bounds after assignment say r < x although r equals x |
| Pentagons.IntendedConstantDifferenceSound | src/main/java/it/unive/scsr/Pentagons.java:174-176 | guarded by a positive constant, every bound the refinement gives r holds in the store after the assignment, given that x's old bounds held |
| Pentagons.IntendedSkipsNonPositive | src/main/java/it/unive/scsr/Pentagons.java:174-176 | the guarded refinement adds no bound for a constant that is not a positive integer |
| ConstantFacts.FirstConstant | src/main/java/it/unive/scsr/CPropSolution.java:70-77 | none iff no fact mentions the id; otherwise the constant of the first fact that does |
| ConstantFacts.FirstConstantSound | src/main/java/it/unive/scsr/CPropSolution.java:70-77 | in a store consistent with the facts, a found constant is the id's value |
| ConstantFacts.NonAssigningKeepsConsistency | src/main/java/it/unive/scsr/CPropSolution.java:143-149 | the transfer of a non-assigning statement (facts minus kill, plus gen) keeps exactly the facts there were, so they still hold in the unchanged store (CProp.java:93-111 is the same) |
| ConstantFacts.Kill | src/main/java/it/unive/scsr/CPropSolution.java:152-165 | the loop kills exactly the facts about the assigned id (CProp.java:98-106 is the same) |
| ConstantFacts.AssignKeepsConsistency | src/main/java/it/unive/scsr/CPropSolution.java:152-165 | facts that survive kill, plus a fact about the new value, hold in the updated store |
| CPropSolution.GetValueOf | src/main/java/it/unive/scsr/CPropSolution.java:70-77 | the early-return loop finds the first constant of the id, which is a fact of the domain |
| CPropSolution.EvalSound | src/main/java/it/unive/scsr/CPropSolution.java:79-127 | about the function Eval: in a consistent store, a computed constant is the concrete value, and a thrown division is a concrete throw |
| CPropSolution.BinaryCases | src/main/java/it/unive/scsr/CPropSolution.java:106-124 | about the function Eval: an unknown operand gives unknown; division by a known 0 throws; a known result comes from an arithmetic operator |
| CPropSolution.Gen | src/main/java/it/unive/scsr/CPropSolution.java:130-140 | gen raises iff evaluation throws, and otherwise generates exactly the fact (id, value) when the value is known |
| CPropSolution.AssignSound | src/main/java/it/unive/scsr/CPropSolution.java:130-165 | after x = e, every fact that survives kill or is generated holds in the updated store |
| CProp.EvaluationSound | src/main/java/it/unive/scsr/CProp.java:35-80 | about the function Evaluation: in a consistent store, a computed constant is the concrete value and a throw is a concrete throw |
| CProp.AgreesWithSolution | src/main/java/it/unive/scsr/CProp.java:35-80 | whenever this evaluation is not unknown it agrees with the reference solution's |
| CProp.DivisionGuardTestsDividend | src/main/java/it/unive/scsr/CProp.java:71-72 | 5 / 0 throws, while 0 / 5 is unknown although its value is 0 |
| CProp.IntendedEvaluationSound | src/main/java/it/unive/scsr/CProp.java:71-72 | with the guard on the divisor evaluation never throws, stays sound, and keeps every constant the as-written evaluation finds |
| CProp.Gen | src/main/java/it/unive/scsr/CProp.java:82-90 | gen raises iff evaluation throws, and otherwise generates exactly the fact (id, value) when the value is known |
| CProp.AssignSound | src/main/java/it/unive/scsr/CProp.java:82-106 | after x = e, every fact that survives kill or is generated holds in the updated store |
| AvailableExpressions.VarsOccur | src/main/java/it/unive/scsr/AvailableExpressions.java:85-112 | every collected variable occurs as an identifier at some position of the expression |
| AvailableExpressions.OccurrencesAreVars | src/main/java/it/unive/scsr/AvailableExpressions.java:85-112 | every identifier occurring in the expression is collected |
| AvailableExpressions.Gen | src/main/java/it/unive/scsr/AvailableExpressions.java:115-127 | the expression is generated iff it passes the filter and the assigned id occurs nowhere in it |
| AvailableExpressions.NonAssigningTransfer | src/main/java/it/unive/scsr/AvailableExpressions.java:130-186 | after a non-assigning statement every available expression survives, and the statement's expression joins them iff it is not an identifier, a constant, Skip or PushAny |
| AvailableExpressions.Kill | src/main/java/it/unive/scsr/AvailableExpressions.java:160-177 | the loop kills exactly the available expressions that read the assigned id |
| AvailableExpressions.AssignForgetsRedefined | src/main/java/it/unive/scsr/AvailableExpressions.java:115-177 | after x = e, no available expression reads x |
| AvailableExpressions.UnreadVariableIsIrrelevant | src/main/java/it/unive/scsr/AvailableExpressions.java:160-177 | changing a variable the expression does not read leaves its concrete value unchanged, which is why kill may keep it |
| Tester.ResultTable.constructor | tester.py:20 | the table starts empty |
| Tester.ResultTable.Append | tester.py:33-34 | a row (branch, id, 0, 0) is added at the end and its position is the old length |
| Tester.ResultTable.SetCompile | tester.py:70 | only the compile flag of that row is set |
| Tester.ResultTable.SetTest | tester.py:80 | only the test flag of that row is set |
| Tester.Split | tester.py:24 | splitting on newlines gives at least one part and no part holds a newline |
| Tester.JoinSplit | tester.py:24 | joining the parts with newlines gives back the output |
| Tester.StripQuotes | tester.py:27-28 | a quoted name loses its first and last quote; an unquoted one is unchanged; a lone quote becomes empty |
| Tester.StripQuotesOfQuoted | tester.py:27-28 | stripping a quoted name gives back the name |
| Tester.IdOf | tester.py:32 | the id is the prefix of the branch before the first '-' |
| Tester.IdOfWholeName | tester.py:32 | a branch without '-' is its own id |
| Tester.KeptBranches | tester.py:24-31 | at most one branch per line, and never master |
| Tester.KeptAllLines | tester.py:24-31 | with no empty line and no master, every line's unquoted name is kept, in order |
| Tester.EvaluateBranch | tester.py:46-80 | compile is set iff checkout, merge and assemble succeed; test is set iff in addition the tests pass |
| Tester.RunTester | tester.py:22-116 | the loop over the split git output builds the table, deletes branches in cleanup mode and stops at the first log that cannot be opened or output that cannot be copied, as Run says; report.csv is written only outside cleanup mode when the script was not stopped |
| Tester.RunAborted | tester.py:40-41 | about the functions Step and Run: once the script has stopped, later branches change nothing |
| Tester.RunWithoutAbort | tester.py:24-103 | about the function Run: in cleanup mode, or for distinct branch names without '/' that are not .gitignore and do not end in .log, the script is not stopped and its table is ExpectedRows |
| Tester.SlashBranchAborts | tester.py:40-41 | a branch feature/x stops the script with its row at 0, 0, because eval-logs/feature does not exist |
| Tester.CopiedDirectoryHoldsLog | tester.py:85-88 | after branch a passed and its outputs were copied to eval-logs/a, branch a/b opens its log there and the script goes on |
| Tester.ExpectedRowsProperties | tester.py:24-80 | no more rows than lines; test implies compile; cleanup leaves every flag 0; no master row; every id is a prefix of its branch |

## Left out

- LiSA's own machinery is not part of this model. The `lub`, `glb`, `lessOrEqual` and `widening` wrappers are assumed to behave as described above. `ValueEnvironment` is reduced to `Environments.Env`. In it, an unmapped identifier reads as the lattice top and `putState` on a top or bottom environment starts from the empty map.
- Pentagons.LubAux: the component results `upperbounds.lub(other.upperbounds)` and `intervals.lub(other.intervals)` are parameters. The method requires non-bottom intervals exactly at the (key, bound) pairs the two loops read; at any other pair the source's `interval.getHigh()` dereferences null.
- Pentagons.LubAux: a bottom bounds lub is accepted only when neither loop puts anything. When a loop does put on a bottom environment, the result depends on how the library's putState treats bottom, which is not part of this model.
- Pentagons.LessOrEqualAux: the result of `intervals.lessOrEqual(other.intervals)` is the `intervalsLeq` parameter, because the library computes it.
- Pentagons.LessOrEqualAux: requires non-null intervals for every pair of other's bounds that this does not know (`ReadsDefined`). A run that returns true reads exactly these pairs. A run that returns false early reads only the pairs before the first failure, in the map's iteration order, which the model does not fix; for those inputs the requirement is stronger than the source's.
- Pentagons.Assign: the component `assign` results are parameters, because they come from the library's non-relational assignment. The method requires `Closable` of the refined pentagon: no mapped interval is bottom (the source's closure dereferences a null interval there), and bounds are bottom only when there are no intervals. Bottom component results satisfy this (`AssignOnBottom`).
- Pentagons.IntendedConstantDifferenceSound: holds over mathematical integers, as the interval domain's bounds are. Under Java wrap-around, x - n can wrap above x (x = -2^31, n = 1).
- Pentagons.Closure: requires no bottom interval values. It also excludes a bottom bounds environment paired with non-empty intervals, whose outcome depends on how the library's `putState` treats a bottom environment.
- Pentagons `wideningAux`, `smallStepSemantics`, `assume`, `forgetIdentifier`, `satisfies`, scope handling and `representation` only delegate to the two components, so they are not modelled separately.
- Intervals: floating point, NaN, the sum -oo + +oo and the differences -oo - -oo and +oo - +oo are not modelled. `EvalBinaryExpression` requires them not to arise (`Evaluable`, through `CanAdd` and `CanSubtract`). This excludes, for instance, TOP - TOP and any subtraction whose operands are both unbounded below or both unbounded above.
- Intervals.Make: `IntInterval` is not part of this model. Its constructor is taken to swap bounds given in the wrong order, as LiSA's does, so every interval the domain builds is `Ordered`.
- Intervals.WideningAux: its exact bounds are stated for an ordered first operand only, which every interval built through `IntInterval` is; `WideningIsStableUpperBound` and `IntendedLubIsLeastUpperBound` require ordered operands for the same reason.
- Intervals.CompareTo: the final comparison of two proper intervals delegates to `IntInterval.compareTo`. It is returned as the marker `ByIntInterval`.
- Intervals and UpperBounds `assume` and `assign` on environments are the library defaults, except `UpperBounds.assumeBinaryExpression`, which is modelled.
- UpperBounds: the `UpperBounds(boolean)` constructor and the iterator are used only through `Elements`. Top has no elements.
- The `null` expression case of `AvailableExpressions.getVariablesIn` and `CPropSolution.eval` is not modelled, since expressions here are never null.
- The dataflow domain's set of elements is a sequence in iteration order. For CProp, `getValueOf` and `evaluation` return the first matching fact.
- `hashCode`, `equals`, `toString` and `representation` of every class are not modelled. Neither are the checkers, the tests or `Evaluable.java`.
- tester.py: the argument check, the contents written to the logs, the console messages, the reset and clean stages, the final checkout of master and the CSV format are not modelled.
- Tester.RunTester: `git clean -fd` (tester.py:100), run after every passing branch, is assumed to remove nothing under eval-logs/. It removes untracked files that are not ignored, eval-logs/.gitignore ignores only `*.json` (tester.py:17-18), and the repository's other ignore rules are not modelled. `CopiedDirectoryHoldsLog` and `RunWithoutAbort` rest on this assumption.
- Tester.RunTester: exit codes are a function of (row position, command) rather than a sequence of process runs, and whether outputs/<name> exists after a branch's tests is the `outputsExist` parameter.
- Tester.RunTester: the log directory tracks the directories and files the script makes, but not what copytree copies inside eval-logs/<branch>, nor path normalisation ('.', '..', repeated '/'). A later branch whose log lies in a copied subdirectory is modelled as stopping the script.

## Findings

| source | as written | input that shows it | evidently intended | confidence | as-written member | corrected member |
|---|---|---|---|---|---|---|
| src/main/java/it/unive/scsr/Intervals.java:232-233 | subtraction computes [l1 - l2, h1 - h2], put in order | [0,1] - [0,10] gives [-9,0], which misses 0 - 10 = -10 | [l1 - h2, h1 - l2] | not executed | Intervals.SubtractionUnsound | Intervals.IntendedSubtractionSound |
| src/main/java/it/unive/scsr/Intervals.java:104-135 | glbAux computes the hull and lubAux the intersection | lubAux([0,3],[1,2]) = [1,2], not above [0,3] | lub is the hull, glb the intersection | not executed | Intervals.LubAuxNotUpperBound | Intervals.IntendedLubIsLeastUpperBound |
| src/main/java/it/unive/scsr/Intervals.java:184-185 | the second `isTop()` test repeats the test on this, so it is dead | [0,5] compared with TOP falls through to the IntInterval comparison, while TOP compared with [0,5] gives 1 | `o.isTop()` returning -1 | not executed | Intervals.CompareToLeavesTopUnordered | Intervals.IntendedCompareToAntisymmetric |
| src/main/java/it/unive/scsr/CProp.java:71-72 | division is guarded by `left == 0` | 5 / 0 throws ArithmeticException; 0 / 5 is lost although it is 0 | guard on `right == 0` | not executed | CProp.DivisionGuardTestsDividend | CProp.IntendedEvaluationSound |
| src/main/java/it/unive/scsr/Pentagons.java:174-176 | r = x - c makes x a strict upper bound of r for every constant c | r = x - 0 with x = 5: the bounds say r < x, yet r = x = 5 | add the bound only for a positive constant | not executed | Pentagons.ConstantDifferenceUnsound | Pentagons.IntendedConstantDifferenceSound |

The model keeps the as-written definitions wherever the source uses them.
`Pentagons` uses the swapped `Intervals.Glb` and the unguarded x - c
refinement, and `CProp.Gen` uses the as-written division guard. The corrected
definitions (`Intervals.IntendedLubAux`, `Intervals.IntendedSubtraction`,
`Intervals.IntendedCompareTo`, `Pentagons.IntendedPreClosure`,
`CProp.IntendedEvaluation`) sit beside them with the intended properties proved.

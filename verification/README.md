# Bitwuzla core: a verified model

This project models the four algorithmic cores of the Bitwuzla SMT solver's bit-vector engine and
proves what they compute, for every width, every assignment and every run.

1. **Bit-blasting** (`src/bzlaaig.c`, `src/bzlaaigvec.c`, `bzla_synthesize_exp` in
   `src/bzlacore.c`). A hash-consed, reference-counted graph of two-input AND nodes with two-level
   rewriting; adders, comparators, barrel shifters, a multiplier and a divider on vectors of its
   literals; the translation of expression DAGs, with inverted and shared edges, into such vectors;
   and the Tseitin encoder that extracts XOR and if-then-else shapes. The main results are that each
   circuit denotes the operator of `src/bzlabv.c`, that each translated node has the value of its
   expression, that the clauses are satisfiable exactly when the asserted roots are, and, joined
   (`BitBlast`), that the clauses made for a list of constraints are satisfiable exactly when the
   constraints are. What the operators mean is told a second time by bits and defining equations
   (`ExpressionLaws`), and every AND that is made is one to which no two-level rule applies.
2. **Word-level propagation** (`src/bzlabvprop.c`). Propagators on three-valued domains (a lower and
   an upper bound per bit). The composed ones (+, *, <, /, %) repeat a list of decomposed steps until
   nothing changes. The main results are that no solution is lost, that a conflict means there is
   none, that the loops end, that the basic propagators and if-then-else narrow as far as domains
   can tell (`BvPropBest`), and that the composed ones decide fixed operands.
3. **Enumeration, factoring, consistency** (`src/bzlabvdomain.c`, `src/bzlaconsutils.c`). Generators
   of the values of a domain in a range, a mod-30 wheel factorizer, and checks whether some value
   of a domain can produce a target.
4. **Local search** (`src/aigprop.c`). The incremental update of model, unsatisfied roots and scores
   after one input flips, the walk that picks the input, and the whole search.

A small fifth part is the shortening of chains of simplified nodes in `src/bzlacore.c`.

## How it is built

- The state the source updates in place is held by classes: `AigManager.Manager`,
  `AigManager.SatManager`, `AigSynth.ExpTable`, `BvGenerator.Generator`,
  `BvSignedGenerator.SignedGenerator`, `BvWheel.WheelFactorizer`, `PropSearch.AigProp` and
  `Simplified.NodeTable`; a vector of literals is an `array`, the divider's rows are `array2`s.
  Domains, bit-vectors and expressions are values.
- A literal is a node id with an inversion bit; id 0 is the constant. `Manager.id2aig` is the table of
  live nodes, the ghost field `graph` remembers freed ones too, so that `Eval(graph, literal, env)` keeps
  its meaning after a release. `handles` is the ghost multiset of the references that callers hold.
- `Num(graph, vector, env)` is the number a vector denotes under the assignment `env` of the AIG
  variables. `BvRef` gives the operators of `src/bzlabv.c` as functions on naturals below 2^w. Every
  circuit is proved against them. `Extends(g, g')` says that only AND nodes were added and that no existing
  literal changed its meaning, `Grows` that variables may have been added too. `Made(h, g, h', g', cells)` in
  circuit contracts says that the operation holds one more reference per cell of its result and nothing
  else, and that no existing literal changed its meaning: every temporary is released.
- `Member(domain, v)` says that the bit-vector `v` agrees with the fixed bits of the domain.
  A propagator contract has two halves: results only get narrower, and every solution of the
  operation inside the arguments is still inside the results and excludes the answer `false`.
- `Best(ok, domains, solutions)` says that the answer is right and that every value that a bit of the
  domains allows occurs in a solution. `Decides(ok, dz, rz, v)` says that the answer is whether `dz`
  allows `v`, and that on success `rz` holds `v` only. `Settled(step, store)` says that fixed operands
  have fixed the result of the step; after a run it holds of every step (`BvPropSteps.Forward`).
- Each loop of a composed propagator is a list of steps over a store of domains (`BvPropSteps`), run
  by `BvProp.Run`. What such a list means is proved apart from the running of it.
- All lemmas switch Dafny's automatic induction off; induction is written out where it is used.

## Findings

Where the code does not do what its comments or callers expect, the exact condition is proved.

- `bzla_is_cons_mul_const` answers `true` on an even target when `x` is fixed to a nonzero value with
  more trailing zeros than the target, although no operand works (src/bzlaconsutils.c:580-608).
  `IsConsMul` is right on all other inputs: `BvConsArith.IsConsMul`, `BvConsArith.MulBlindExample`.
- `bzla_bvdomain_gen_init_range` yields nothing on a domain without a free bit
  (src/bzlabvdomain.c:493), so the checks that ask a generator answer `false` for a fixed domain whose
  only value would do: the shift amounts of sll and srl (a fixed amount not above the trailing or leading
  zeros of a nonzero target), of sra (a fixed amount below the leading run of the target's sign), the
  shifted operand of sra (a fixed value with the target's sign, target all zeros or all ones) and the
  divisor of urem (a fixed value above the target). Each contract states that this is the only failure:
  `IsConsSllSecond`, `IsConsSrlSecond`, `IsConsSraSecond`, `IsConsSraFirst`, `IsConsUremSecond`, with
  the inputs `ShiftFixedExample`, `SraSecondFixedExample`, `SraFirstFixedExample`, `UremFixedExample`.
- `bzla_is_cons_udiv_const` answers `true` for a divisor fixed to zero and a target that is not all
  ones, although a division by zero gives all ones (src/bzlaconsutils.c:697-724). This is the only
  failure of `IsConsUdivSecond`; `UdivBlindExample` is an input.
- The first-operand checks of sll, srl and sra draw a random value for the bits that the shift loses
  (src/bzlaconsutils.c:252-253, 356-357, 524-525). On a fixed operand the generator is empty
  (`BvConsShift.Draw`) and the assertion in it fails. A fixed operand matches at one shift at most
  (`SllMatchOnce`, `SrlMatchOnce`), so that every run on it needs a draw exactly if it matches at a shift
  above 0 (`SllDrawn`, `SrlDrawn`). `IsConsSllFirst`, `IsConsSrlFirst` and `IsConsSraFirst` state for every
  input when the answer is right and when there is no value to store; inputs are `SllDrawExample`,
  `SrlDrawExample` and `SraDrawExample`.
- In a one-bit word the wheel factorizer never finishes unless a call is limited to one step: the first
  candidate 2 is truncated to 0 (src/bzlabvdomain.c:795, 800) and 1 divides everything, so collecting all factors does
  not end (`BvWheel.OneBitFactors`). From two bits on, the factors of n are primes if and only if n is above 1: 0 and 1
  come out unchanged.
- `update_unsatroots_table` keeps the table of false roots exact if and only if a node and its
  complement are not both roots: `PropCone.UpdateUnsatRight`. The search rejects such roots first.
- Comments against code; the model follows the code. The comments of `bzla_bvprop_not` and `bzla_bvprop_eq`
  have `hi` where the code uses `lo` (src/bzlabvprop.c:707-721, 579, 607).
- The bandit of `select_root` raises the count of the first root of the table only: for the winner it multiplies the count
  by 1 (src/aigprop.c:751). `BanditRoot` states the new counts.
- `update_cone` does not flip the score of a constant right child in the negated score (src/aigprop.c:661-663), unlike
  `compute_score_aig`; the value is right if and only if the child is no constant (`RightComplementExact`), and no AND has a
  constant child.
- `move` cannot answer -1 (src/aigprop.c:900): `SelectRoot` always finds a root.
- `bzla_bvprop_eq` leaves the operands alone when they must differ (src/bzlabvprop.c:537-683), even if only one bit can
  still make them differ and one value of it does. `EqBest` gives the exact condition, `EqLastExample` an input.
- The rule of resolution of `bzla_aig_and` names one position of the shared literal twice and the opposite one never
  (src/bzlaaig.c:526-557): `TwoLevelExact` states what the rules leave alone, `CrossedExample` is an input. With sorted
  operands the case cannot occur (`SortedNotCrossed`).
- `bzla_bvprop_cond` on operands of width 1 returns the condition unchanged (src/bzlabvprop.c:2157-2189) even if only one
  value of it is possible: `PropCond`, `CondOneBitExample`.

## Model

| member | source | states |
|---|---|---|
| `AigGraph.EvalExtend` | src/bzlaaig.c:65-100 | a literal keeps its value under every assignment when nodes are added behind it: ids are never reused and children have smaller ids |
| `AigGraph.GrowsReduced` | src/bzlaaig.c:426-734 | in every graph that the operations make from the empty one, each AND is one to which no two-level rule applies: no operand is a child of the other one, two operands have no child node in common unless both are negated, and then they do not resolve place by place |
| `AigRewrite.TrivialSound` | src/bzlaaig.c:444-450 | the constant, equal and complementary operand cases give the conjunction |
| `AigRewrite.ContradictionSound` | src/bzlaaig.c:455-483 | an operand whose child is the complement of the other operand, or of a child of it, makes the conjunction false |
| `AigRewrite.SubsumptionSound` | src/bzlaaig.c:484-525 | the operand that implies the negated other one is the conjunction |
| `AigRewrite.ResolutionSound` | src/bzlaaig.c:526-557 | two negated nodes over one literal and both phases of another resolve to the complement of that literal |
| `AigRewrite.IdempotencySound` | src/bzlaaig.c:558-597 | the node that already contains the other operand is the conjunction; a retry keeps the conjunction and lowers the sum of the operand ids |
| `AigRewrite.AsymmetricSubstitutionSound` | src/bzlaaig.c:598-625 | replacing a negated node by its other child under a shared child keeps the conjunction, both operands stay live and the sum of ids falls |
| `AigRewrite.SymmetricSubstitutionSound` | src/bzlaaig.c:626-667 | the same for a child shared with a positive node |
| `AigRewrite.TwoLevelSound` | src/bzlaaig.c:444-667 | whatever rule fires first: a finished result is live and is the conjunction, a retry has the same conjunction on live operands with a strictly smaller sum of ids, so the goto loop ends |
| `AigRewrite.TwoLevelExact` | src/bzlaaig.c:444-667 | the rules leave alone exactly such operands, up to two negated ones that resolve crosswise |
| `AigRewrite.CrossedExample` | src/bzlaaig.c:526-557 | two negated operands that resolve, but not with their places exchanged |
| `AigRewrite.FindContradictionSound` | src/bzlaaig.c:373-400 | a search below a positive literal that answers yes has found the complement of one of the two operands, so the three literals are never all true |
| `AigRewrite.DeepSound` | src/bzlaaig.c:669-673 | when the bounded search below the two operands answers yes, no assignment satisfies both |
| `AigRewrite.DeepComplete` | src/bzlaaig.c:373-399 | when the search below both operands needs fewer calls than its limit, it answers yes exactly when a conjunct of an operand is the complement of one of the two operands |
| `UniqueTable.AppendBucket` | src/bzlaaig.c:704-733 | writing a new id at the end of the chain of its hash keeps every chain linked and every id in exactly the bucket of its hash |
| `UniqueTable.RemoveBucket` | src/bzlaaig.c:158-181 | unlinking a node from its chain removes that id only and keeps every other chain |
| `UniqueTable.UniqueUpToSwap` | src/bzlaaig.c:201-239 | with sorted children no two live ANDs have the same two children in either order |
| `AigManager.SatManager.constructor` | src/bzlaaig.c:771-789 | the clause list starts with the true literal as its only unit clause, no node numbered |
| `AigManager.Manager.constructor` | src/bzlaaig.c:771-789 | a fresh manager satisfies the whole invariant with no node, no held reference and an empty table |
| `AigManager.Manager.Copy` | src/bzlaaig.c:286-293 | one more reference is held on the literal and nothing else changes |
| `AigManager.Manager.NewVar` | src/bzlaaig.c:350-362 | the result is a new variable node, held once, that denotes its own input under every assignment |
| `AigManager.Manager.DeleteNode` | src/bzlaaig.c:295-348 | a node whose count drops to zero leaves the table of nodes, and what it held on its children becomes held by the caller |
| `AigManager.Manager.Release` | src/bzlaaig.c:295-348 | exactly one held reference is given back; counts, unique table and values all stay right, and the work list empties because the set of live nodes shrinks |
| `AigManager.Manager.FindAnd` | src/bzlaaig.c:201-250 | the search finds a node exactly when one with these (possibly sorted) children is live, and otherwise gives the free end of the right chain |
| `AigManager.Manager.Enlarge` | src/bzlaaig.c:252-284 | doubling rehashes every live AND into the bucket of its new hash and loses none |
| `AigManager.Manager.FindOrCreate` | src/bzlaaig.c:706-733 | the result is an AND node with these children, freshly made only if none was live, held once more |
| `AigManager.Manager.FindXor` | src/bzlaaig.c:675-703 | the lookup finds something exactly when the operands are !(a & b) and !(!a & !b) and the three nodes of the XOR of a and b are live; it is then, inverted, their conjunction |
| `AigManager.Manager.MakeAnd` | src/bzlaaig.c:426-734 | under every assignment the result is the conjunction of the operands through all rewrite rules and retries; it is held once more, existing nodes keep their place and meaning, the manager invariant holds, and a node is made only over operands to which no rule applies |
| `AigManager.Manager.MakeOr` | src/bzlaaig.c:736-742 | the result is the disjunction of the operands under every assignment |
| `AigManager.Manager.CountsExact` | src/bzlaaig.c:183-348 | the count of a live node is the number of held references plus the number of live parent edges |
| `AigManager.Manager.LiveExactly` | src/bzlaaig.c:295-348 | in every reachable state a node is live if and only if it is reachable from a held reference |
| `AigManager.Manager.NothingLeft` | src/bzlaaig.c:888-901 | when no reference is held any more, every node is freed and the unique table counts no element |
| `AigManager.Manager.SharedOnce` | src/bzlaaig.c:135-284 | every live AND sits once in the chain of its hash and in no other, none has the same ordered children as another (nor swapped ones with sorting on), and the element count is their number |
| `References.LiveIffReachable` | src/bzlaaig.c:295-348 | with exact counts the live nodes are those reachable from a held reference, by induction from the largest id |
| `References.AllReleased` | src/bzlaaig.c:295-348 | with exact counts and nothing held no node is live |
| `AigGates.MakeEq` | src/bzlaaig.c:744-756 | the result is true exactly when the two operands agree |
| `AigGates.MakeCond` | src/bzlaaig.c:758-769 | the result is the first branch where the condition is true and the second elsewhere |
| `AigGates.HalfAdder` | src/bzlaaigvec.c:292-305 | sum plus twice the carry is the sum of the two bits |
| `AigGates.FullAdder` | src/bzlaaigvec.c:307-319 | sum plus twice the carry is the sum of the three bits |
| `AigVector.MakeConst` | src/bzlaaigvec.c:41-56 | the vector denotes the given number under every assignment |
| `AigVector.MakeVars` | src/bzlaaigvec.c:71-84 | the cells are distinct new variables, least significant first in creation order |
| `AigVector.Invert` | src/bzlaaigvec.c:86-96 | the cells are complemented in place |
| `AigVector.InvertedTwice` | src/bzlaaigvec.c:86-96 | inverting a vector in place twice restores it |
| `AigVector.MakeNot` | src/bzlaaigvec.c:98-111 | denotes the complement; the operand is untouched and each cell is held once more |
| `AigVector.MakeSlice` | src/bzlaaigvec.c:113-133 | denotes bits upper down to lower of the operand |
| `AigVector.MakeConcat` | src/bzlaaigvec.c:825-847 | denotes the first operand shifted above the second |
| `AigVector.ReleaseVec` | src/bzlaaigvec.c:939-954 | gives back exactly the references of the cells |
| `AigLogic.MakeAndVec` | src/bzlaaigvec.c:135-150 | denotes the bitwise conjunction |
| `AigLogic.MakeCondVec` | src/bzlaaigvec.c:849-872 | denotes the second operand where the condition is 1 and the third elsewhere |
| `AigLogic.MakeEqVec` | src/bzlaaigvec.c:264-290 | is 1 exactly when the two numbers are equal |
| `AigLogic.MakeUlt` | src/bzlaaigvec.c:152-193 | is 1 exactly when the first number is below the second |
| `AigSigned.SltSplit` | src/bzlaaigvec.c:195-262 | signed order is decided by the sign bits and, when they agree, by the unsigned order of the rest |
| `AigSigned.MakeSlt` | src/bzlaaigvec.c:195-262 | is 1 exactly when the two's complement reading of the first vector is below that of the second, width 1 included |
| `AigAdder.CompareVec` | src/bzlaaigvec.c:321-334 | zero means equal cells, otherwise the order at the first differing cell |
| `AigAdder.MakeAdd` | src/bzlaaigvec.c:336-367 | denotes the sum modulo 2^w, operands swapped or not; temporaries are released |
| `AigShift.ShiftBits` | src/bzlaaigvec.c:369-400 | one stage: cell by cell the operand moved by n places where the shift literal is true, itself elsewhere |
| `AigShift.StageValue` | src/bzlaaigvec.c:369-400 | such a stage denotes the shift by n times the shift bit |
| `AigShift.PowerOfTwoFor` | src/bzlaaigvec.c:402-520 | the least power of two not below the width, and its exponent |
| `AigShift.Barrel` | src/bzlaaigvec.c:522-545 | the stages together shift by the whole amount |
| `AigShift.ShiftSelect` | src/bzlaaigvec.c:402-520 | an amount with a bit beyond the barrel gives zero, otherwise the barrel result |
| `AigShift.MakeShift` | src/bzlaaigvec.c:402-623 | denotes the logical left or right shift for every width, not only powers of two, amounts not below the width giving zero |
| `AigMul.AddRow` | src/bzlaaigvec.c:625-667 | one row of the multiplier adds the masked operand at its offset into the accumulator and leaves the lower part |
| `AigMul.MulRow` | src/bzlaaigvec.c:625-667 | the number carried by the accumulator after a row is the product with one more bit of the multiplier, modulo 2^w |
| `AigMul.MakeMul` | src/bzlaaigvec.c:625-673 | denotes the product modulo 2^w, operands swapped or not |
| `AigDiv.DivideStep` | src/bzlaaigvec.c:715-794 | one step of long division: remainder and quotient of the dividend with one more bit, from those without it, zero divisor included |
| `AigDiv.DividedStep` | src/bzlaaigvec.c:715-794 | a row of carry and sum gates performs that step for every assignment |
| `AigDiv.DivRow` | src/bzlaaigvec.c:715-794 | after row j the upper cells of row j + 1 denote the remainder and the quotient bits the quotient of the top j + 1 dividend bits |
| `AigDiv.DivideBoth` | src/bzlaaigvec.c:715-794 | the two vectors denote quotient and remainder for every width and assignment, all ones and the dividend for divisor 0; every temporary of both matrices is released |
| `AigDiv.MakeUdiv` | src/bzlaaigvec.c:796-809 | denotes the quotient; the remainder is released again |
| `AigDiv.MakeUrem` | src/bzlaaigvec.c:811-823 | denotes the remainder; the quotient is released again |
| `AigSynth.SynthApart` | src/bzlacore.c:2505-2582 | with two different child vectors inverted in place and back, the result denotes the operator on the (inverted) operands and both children are as before |
| `AigSynth.SynthShared` | src/bzlacore.c:2505-2582 | when both children share one vector, copies give the operator on the two, possibly different, phases of it |
| `AigSynth.SynthSlice` | src/bzlacore.c:2493-2504 | the slice of the (inverted) child, which is left as it was |
| `AigSynth.SynthCondApart` | src/bzlacore.c:2583-2625 | if-then-else over three different vectors inverted in place and back |
| `AigSynth.SynthCondShared` | src/bzlacore.c:2583-2625 | if-then-else when some children share a vector |
| `AigSynth.ExpTable.constructor` | src/bzlacore.c:2319-2345 | a table in which no node is translated satisfies the invariant |
| `AigSynth.ExpTable.Synthesize` | src/bzlacore.c:2319-2638 | the root and all that it needs get vectors; a vector that existed is unchanged in place and content; every vector denotes its node and holds exactly its own references; if every AIG variable was held from outside, it still is |
| `AigSynth.ExpTable.Correct` | src/bzlacore.c:2319-2638 | in every state the vector of a node evaluates to the value of the expression under every assignment of the variables |
| `AigSynth.EveryAssignment` | src/bzlacore.c:2366-2382 | every assignment of the expression variables is reached by an assignment of the AIG variables, since no two cells share one |
| `AigSynth.ExpTable.Complete` | src/bzlacore.c:2319-2638 | for every assignment of the expression variables some AIG assignment gives the vector the value of the node |
| `ExpressionLaws.OperatorMeans` | src/bzlacore.c:2528-2566 | the value of a node with two operands fits its width and is, told by bits or by the defining equation: for and, shifts and concatenation bit by bit; for + and * up to a multiple of 2^w; for udiv the v with v * b <= a < (v + 1) * b, or all ones; for urem the v below b with b dividing a - v, or a; for =, < and signed < 1 exactly if it holds |
| `ExpressionLaws.MeansOne` | src/bzlacore.c:2528-2566 | for each operator and operands that leaves one value |
| `ExpressionLaws.NodeMeans` | src/bzlacore.c:2366-2600 | a constant and a variable have their values, a slice the bits of its operand, a choice the operand that the condition of one bit picks |
| `ExpressionLaws.EdgeMeans` | src/bzlacore.c:2495-2580 | an inverted edge complements every bit |
| `AigCnf.SharedReadable` | src/bzlaaig.c:903-949 | if every variable under an AND has another holder, the nodes whose children the XOR and if-then-else tests read are ANDs |
| `AigCnf.NodeReadable` | src/bzlaaig.c:951-1022 | this holds of every AND of a manager in an encodable state |
| `AigCnf.ShapeValue` | src/bzlaaig.c:903-1022 | a node taken for an XOR, an if-then-else or a plain AND has that value over its leaves |
| `AigCnf.ClausesMean` | src/bzlaaig.c:1190-1284 | the clauses of a shape are satisfied exactly when the literal of the node equals the shape over the literals of the leaves |
| `AigCnf.NumberNode` | src/bzlaaig.c:1024-1035 | a numbered node gets an id that no other node has |
| `AigCnf.ToSatTseitin` | src/bzlaaig.c:1097-1307 | the literal gets a CNF id, all marks are cleared, and the clauses still encode the graph faithfully for the same asserted roots |
| `AigCnf.AddToplevel` | src/bzlaaig.c:1434-1446 | exactly the root is added to what the clauses faithfully assert, the constants included |
| `AigCnf.UniqueExtension` | src/bzlaaig.c:1097-1307 | each assignment of the AIG variables extends in exactly one way to the CNF variables, and that extension satisfies the clauses exactly when all asserted roots are true |
| `AigCnf.ModelMeans` | src/bzlaaig.c:1097-1307 | every model of the clauses gives each numbered node its AIG value and makes all asserted roots true |
| `AigCnf.Equisatisfiable` | src/bzlaaig.c:1328-1446 | the clauses have a model if and only if some assignment makes all asserted roots true |
| `AigCnf.NewManager` | src/bzlaaig.c:771-789 | a fresh manager with a fresh clause list is in an encodable state |
| `AigCnf.ReadyKept` | src/bzlaaig.c:1097-1446 | growing or shrinking the graph keeps the encodable state as long as variables under ANDs are shared |
| `AigCnf.Perform` | src/bzlaaig.c:286-734 | any single variable, and, copy or release call keeps the encodable state if every variable was held from outside and the call does not give back its last reference |
| `AigCnf.VarsAreShared` | src/bzlaaig.c:903-949 | if every variable is held from outside, every variable under an AND has more than one holder, which is what the encoder relies on |
| `BitBlast.RootMeans` | src/bzlacore.c:3060-3088 | the literal of a one-bit node, through the edge, is true exactly when the expression has value 1 |
| `BitBlast.RootsSatisfiable` | src/bzlacore.c:3060-3088 | some assignment of the AIG makes all asserted literals true exactly when some assignment of the expression variables gives every constraint the value 1 |
| `BitBlast.ExpToAig` | src/bzlacore.c:3060-3088 | the literal of the constraint is handed out with one reference, and table and clauses still belong together |
| `BitBlast.AssertConstraint` | src/bzlacore.c:1149-1161 | one more constraint is asserted and its reference given back; a literal that is the constant false means that no assignment satisfies the constraint |
| `BitBlast.ProcessConstraints` | src/bzlacore.c:1119-1168 | after any number of such calls the clauses have a model exactly when the constraints asserted so far have a common solution; an early stop means that the new ones have none |
| `BitBlast.ClausesMeanConstraints` | src/bzlacore.c:1073-1168 | in every such state the clauses have a model exactly when the asserted constraints have a common solution |
| `BitBlast.BlastAll` | src/bzlacore.c:1073-1168 | from a fresh manager: the clauses for a list of one-bit expressions have a model if and only if some assignment of their variables gives all of them the value 1 |
| `BvDomain.UnfixedLess` | src/bzlabvprop.c:80-108 | a narrower domain that differs has strictly fewer free bits |
| `BvPropBasic.EqSound` | src/bzlabvprop.c:537-683 | no pair whose equality bit is allowed is lost, and `false` means there is none |
| `BvPropBest.EqBest` | src/bzlabvprop.c:537-683 | the answer and the result bit are the best; the operands are the best if and only if it is not the case that they must differ, still can at one position only, and just one of the two bits there is fixed |
| `BvPropBest.EqLastExample` | src/bzlabvprop.c:537-683 | operands that must differ and have one chance left: the free bit is not fixed |
| `BvPropBasic.NotSound` | src/bzlabvprop.c:685-732 | no solution of z = ~x is lost, and `false` means there is none |
| `BvPropBest.NotBest` | src/bzlabvprop.c:685-732 | `false` exactly if there is no solution, and otherwise every value that a bit of the results still allows occurs in a solution |
| `BvPropBasic.SllSound` | src/bzlabvprop.c:734-860 | no solution of z = x << n is lost, and `false` means there is none |
| `BvPropBest.SllBest` | src/bzlabvprop.c:734-860 | the same: no domains could be narrower without losing a solution |
| `BvPropBasic.SrlSound` | src/bzlabvprop.c:734-871 | no solution of z = x >> n is lost, and `false` means there is none |
| `BvPropBest.SrlBest` | src/bzlabvprop.c:734-871 | the same: no domains could be narrower without losing a solution |
| `BvPropBasic.AndSound` | src/bzlabvprop.c:1206-1273 | no solution of z = x & y is lost, and `false` means there is none |
| `BvPropBest.AndBest` | src/bzlabvprop.c:1206-1273 | the same: no domains could be narrower without losing a solution |
| `BvPropBasic.OrSound` | src/bzlabvprop.c:1275-1342 | no solution of z = x \| y is lost, and `false` means there is none |
| `BvPropBest.OrBest` | src/bzlabvprop.c:1275-1342 | the same: no domains could be narrower without losing a solution |
| `BvPropBasic.XorSound` | src/bzlabvprop.c:1344-1448 | no solution of z = x ^ y is lost, and `false` means there is none |
| `BvPropBest.XorBest` | src/bzlabvprop.c:1344-1448 | the same: no domains could be narrower without losing a solution |
| `BvPropBasic.SliceSound` | src/bzlabvprop.c:1450-1535 | no solution of a slice is lost, and `false` means there is none |
| `BvPropBest.SliceBest` | src/bzlabvprop.c:1450-1535 | the same: no domains could be narrower without losing a solution |
| `BvPropBasic.ConcatSound` | src/bzlabvprop.c:1537-1686 | no solution of a concatenation is lost, and `false` means there is none |
| `BvPropBest.ConcatBest` | src/bzlabvprop.c:1537-1686 | the same: no domains could be narrower without losing a solution |
| `BvPropBasic.SextSound` | src/bzlabvprop.c:1688-1765 | no solution of a sign extension is lost, and `false` means there is none |
| `BvPropBest.SextBest` | src/bzlabvprop.c:1688-1765 | the same: no domains could be narrower without losing a solution |
| `BvPropCond.PropCond` | src/bzlabvprop.c:1951-2218 | the loop over the spread condition ends, only narrows, and loses no solution of z = c ? x : y; `false` exactly if there is none, and otherwise every value that a bit of the results still allows occurs in a solution, except for the condition over one-bit operands, which is returned as it came |
| `BvPropCond.CondOneBitExample` | src/bzlabvprop.c:2157-2189 | one-bit operands for which only one value of the free condition is possible |
| `BvPropSteps.ApplyKeeps` | src/bzlabvprop.c:173-292 | a basic step that succeeds leaves a narrower store of valid domains |
| `BvPropSteps.ApplySound` | src/bzlabvprop.c:173-292 | values that lie in the store and satisfy the relation of the step still lie in the store after it, and the step does not fail |
| `BvPropSteps.ApplySettled` | src/bzlabvprop.c:173-292 | a basic step that succeeds has fixed the result if the operands are fixed, to the value of the operation |
| `BvProp.DecompStep` | src/bzlabvprop.c:173-292 | all this for a step that may itself be a whole propagator for a sum, a comparison or an if-then-else |
| `BvProp.Run` | src/bzlabvprop.c:2306-2437 | repeating steps until nothing changes ends, keeps all values that satisfy every step, and reports a conflict only if there are none; on success no basic step can narrow any further, and the result of every step over fixed operands is fixed to the value of the operation |
| `BvCarry.AddWhole` | src/bzlabv.c:918-934 | ripple-carry addition of bit sequences is addition modulo 2^w, with the carry out telling overflow |
| `BvProp.PropAddCarry` | src/bzlabvprop.c:2224-2466 | no solution of the sum with its carries is lost and `false` means there is none; on success, two of the operands and the sum being fixed, all three and the carries are fixed to the values of a sum |
| `BvProp.PropAdd` | src/bzlabvprop.c:2468-2495 | no solution of z = x + y modulo 2^w is lost and `false` means there is none; two of the three being fixed, so is the third; on fixed operands the answer is exact and the result is the sum |
| `BvProp.UltMeans` | src/bzlabvprop.c:2993-2997 | x < y exactly when neither carry of ~y + 1 and x + -y leaves the word |
| `BvProp.PropUlt` | src/bzlabvprop.c:2959-3151 | no solution of z = (x < y) is lost, and `false` means there is none; on fixed operands the answer is exact and the result is the comparison; the results are cells of a store in which no step finds out more |
| `BvPropMul.ProductIsSum` | src/bzlabvprop.c:2601-2728 | the product is the sum of the partial products at the positions kept, those of y fixed to 0 being skipped |
| `BvPropMul.PropMul` | src/bzlabvprop.c:2497-2957 | no solution of z = x * y modulo 2^w is lost, and `false` means there is none; on fixed operands the answer is exact and the result is the product; the results are cells of a store in which no step finds out more |
| `BvDivBits.RowBound` | src/bzlabvprop.c:3434-3465 | the shifted partial remainder of row i stays below 2^(i+1), so it never outgrows the word |
| `BvDivBits.RowStep` | src/bzlabvprop.c:3434-3465 | each row subtracts the divisor exactly when it fits and appends that bit to the quotient |
| `BvPropDiv.PropDivision` | src/bzlabvprop.c:3410-4187 | no triple with z = x / y, or z = x % y, zero divisor included, is lost, and `false` means there is none; on fixed operands the answer is exact and the result is the quotient or the remainder; the results are cells of a store in which no step finds out more |
| `BvGenerator.BitsMin` | src/bzlabvdomain.c:499-529 | the least filling of the free bits whose value is not below the minimum |
| `BvGenerator.BitsMax` | src/bzlabvdomain.c:531-560 | the greatest filling of the free bits whose value is not above the maximum |
| `BvGenerator.Generator.constructor` | src/bzlabvdomain.c:459-578 | the values to come are exactly the members of the domain in the range, none for a fully fixed domain |
| `BvGenerator.Generator.HasNext` | src/bzlabvdomain.c:580-586 | true exactly when a value is still to come |
| `BvGenerator.Generator.NextBits` | src/bzlabvdomain.c:389-445 | in order the least value to come is taken out; at random some member of the range is drawn |
| `BvGenerator.Generator.Next` | src/bzlabvdomain.c:588-595 | the least value to come is returned and removed |
| `BvGenerator.Generator.Random` | src/bzlabvdomain.c:597-604 | a member of the domain in the range is returned |
| `BvGenerator.AllValues` | src/bzlabvdomain.c:389-595 | asking until nothing comes yields exactly the members of the domain in the range, ascending, each once |
| `BvSignedGenerator.SignedGenerator.constructor` | src/bzlabvdomain.c:635-688 | the values to come are exactly the members between the signed bounds |
| `BvSignedGenerator.SignedGenerator.HasNext` | src/bzlabvdomain.c:690-706 | true exactly when a value is still to come; moves from the negative to the other half |
| `BvSignedGenerator.SignedGenerator.Next` | src/bzlabvdomain.c:708-714 | the value to come that is least in signed order is returned and removed |
| `BvSignedGenerator.SignedGenerator.Random` | src/bzlabvdomain.c:716-737 | a member between the signed bounds is returned, and the generator can be asked again |
| `BvSignedGenerator.AllSigned` | src/bzlabvdomain.c:623-714 | asking `has_next` before each `next` yields exactly the members in the signed range, in signed order, each once |
| `BvWheel.NoneJumped` | src/bzlabvdomain.c:778-813 | the increments of the wheel jump over multiples of 2, 3 and 5 only, so no divisor is missed |
| `BvWheel.NextCandidate` | src/bzlabvdomain.c:751-813 | a turn of the wheel leads to the next number that is 2, 3, 5 or divisible by none of them |
| `BvWheel.NoWrap` | src/bzlabvdomain.c:815-891 | while the square of the candidate stays in the word, advancing it does not wrap |
| `BvWheel.WheelFactorizer.constructor` | src/bzlabvdomain.c:778-813 | the factorizer starts on the whole number with nothing given out, for every width and number |
| `BvWheel.WheelFactorizer.Next` | src/bzlabvdomain.c:815-891 | from two bits on a call turns the wheel past candidates that are not above the root and do not divide what is left, up to one that divides it, which is returned and is the least divisor above 1, or one above the root, when what is left is returned; it gives up exactly after as many turns as the limit says; 0 and 1 come out unchanged, and in a one-bit word there is always another factor unless the limit is one step |
| `BvWheel.Factors` | src/bzlabvdomain.c:904-935 | from two bits on, for a number above 1, the stream is a nondecreasing list of primes whose product is the number, or that many candidates as the limit says failed on what is left after it; it is empty exactly if the first candidates up to the limit all fail on the number; asked for one it is the least prime factor |
| `BvWheel.OneBitFactors` | src/bzlabvdomain.c:915-932 | in a one-bit word any number of calls gives that many factors, so collecting them all does not end |
| `BvReach.SllLeft` | src/bzlabv.c:1264-1325 | some amount shifts v left to t exactly when, for a count up to the trailing zeros of t, the low part of v is the high part of t |
| `BvReach.SllRight` | src/bzlabv.c:1264-1325 | shifting by v can give t exactly when t is 0 or v is not above the trailing zeros of t |
| `BvReach.SrlLeft` | src/bzlabv.c:1351-1381 | the same for right shifts and leading zeros |
| `BvReach.SrlRight` | src/bzlabv.c:1351-1381 | shifting right by v can give t exactly when t is 0 or v is not above the leading zeros of t |
| `BvReach.SraLeft` | src/bzlabv.c:1327-1349 | the same for arithmetic shifts and the leading run of the sign of t |
| `BvReach.SraRight` | src/bzlabv.c:1327-1349 | shifting arithmetically by v can give t exactly when v is below the leading run of t |
| `BvReachArith.MulReach` | src/bzlabv.c:1383-1399 | v * s = t modulo 2^w is solvable exactly when t is 0 or v has no more trailing zeros than t |
| `BvReachArith.UdivReach` | src/bzlabv.c:1401-1428 | s / v = t is solvable exactly when v is 0 or 1 for all ones, and v > 0 with v * t below 2^w otherwise |
| `BvReachArith.UremReach` | src/bzlabv.c:1401-1428 | s % v = t is solvable exactly when v is 0 or above t |
| `BvCons.CheckIsMember` | src/bzlabvdomain.c:262-275 | the mask test accepts exactly the members of a valid domain |
| `BvCons.AndExact` | src/bzlaconsutils.c:57-79 | the answer is true exactly when some member and some operand give the target |
| `BvCons.UltExact` | src/bzlaconsutils.c:127-147 | the answer is exact for both operand positions |
| `BvCons.SltExact` | src/bzlaconsutils.c:159-180 | the answer is exact for both operand positions |
| `BvCons.ConcatExact` | src/bzlaconsutils.c:852-885 | the answer is exact for both operand positions |
| `BvConsShift.IsConsSllFirst` | src/bzlaconsutils.c:192-285 | the answer is exact on every input; a stored value is a member that reaches the target; there is none to store exactly if the target is 0, the answer is false, or a fixed operand needs a draw |
| `BvConsShift.IsConsSllSecond` | src/bzlaconsutils.c:192-285 | the answer is exact unless the amount is fixed, not above the trailing zeros, and the target nonzero; a stored value reaches the target |
| `BvConsShift.IsConsSrlFirst` | src/bzlaconsutils.c:297-389 | the same for right shifts |
| `BvConsShift.IsConsSrlSecond` | src/bzlaconsutils.c:297-389 | the answer is exact unless the amount is fixed, not above the leading zeros, and the target nonzero; a stored value reaches the target |
| `BvConsShift.IsConsSraFirst` | src/bzlaconsutils.c:410-542 | the answer is exact unless, for a target of equal bits, the value is fixed with the sign of the target; there is no value to store exactly if the answer is false or a fixed operand needs a draw |
| `BvConsShift.Draw` | src/bzlaconsutils.c:252-254 | the generator asked for the lost bits has a value exactly if the operand has a free bit |
| `BvConsShift.SllMatchOnce` | src/bzlaconsutils.c:227-242 | a fixed operand matches a nonzero target at one left shift at most |
| `BvConsShift.SrlMatchOnce` | src/bzlaconsutils.c:333-347 | the same for right shifts, logical and arithmetic |
| `BvConsShift.SllDrawn` | src/bzlaconsutils.c:227-260 | on a fixed operand every slice on the stack is short, so that every pick needs a draw, exactly if it matches at a shift above 0 |
| `BvConsShift.SrlDrawn` | src/bzlaconsutils.c:498-531 | the same for right shifts, logical and arithmetic |
| `BvConsShift.IsConsSraSecond` | src/bzlaconsutils.c:410-542 | the answer is exact unless the amount is fixed and below a leading run that is not the whole target |
| `BvConsShift.SllDrawExample` | src/bzlaconsutils.c:242-258 | a fixed operand that sll accepts and for which an empty generator is asked |
| `BvConsShift.SrlDrawExample` | src/bzlaconsutils.c:347-362 | the same for srl |
| `BvConsShift.SraDrawExample` | src/bzlaconsutils.c:513-530 | the same for sra |
| `BvConsShift.ShiftFixedExample` | src/bzlaconsutils.c:268-283 | an input on which the sll and srl amount checks are wrong |
| `BvConsShift.SraFirstFixedExample` | src/bzlaconsutils.c:440-457 | an input on which the sra operand check is wrong |
| `BvConsShift.SraSecondFixedExample` | src/bzlaconsutils.c:478-492 | an input on which the sra amount check is wrong |
| `BvConsArith.IsConsMul` | src/bzlaconsutils.c:554-613 | the answer is exact if and only if it is not the case that x is fixed and nonzero, t even and nonzero, and x has more trailing zeros; a stored value reaches the target |
| `BvConsArith.MulBlindExample` | src/bzlaconsutils.c:554-613 | an input on which the multiplication check is wrong |
| `BvConsArith.ShrinkDivisor` | src/bzlaconsutils.c:702-724 | the loop that lowers the upper bound ends, misses no divisor, and a result reaches the target |
| `BvConsArith.IsConsUdivSecond` | src/bzlaconsutils.c:681-730 | the answer is exact unless the divisor is fixed to 0 and the target is not all ones |
| `BvConsArith.UdivBlindExample` | src/bzlaconsutils.c:681-730 | an input on which the divisor check is wrong |
| `BvConsArith.IsConsUremSecond` | src/bzlaconsutils.c:811-838 | the answer is exact unless the divisor is fixed above the target |
| `BvConsArith.UremFixedExample` | src/bzlaconsutils.c:811-838 | an input on which the divisor check for remainders is wrong |
| `PropScore.ScoreOne` | src/aigprop.c:120-273 | the score of a literal is 1 exactly when the literal is true |
| `PropScore.AndScoreIs` | src/aigprop.c:211-253 | in exact numbers the score of an AND is the mean of the scores of its operands, and the score of its complement is the greater one of those of their complements |
| `PropScore.LeafScoreIs` | src/aigprop.c:190-209 | the score of an input or a constant is 1 if it is true and 0 otherwise |
| `PropScore.UnaffectedScore` | src/aigprop.c:490-704 | a score changes only if the node depends on the input that changed |
| `PropModel.ComputeAssignment` | src/aigprop.c:344-412 | the table gets the value of the node and of everything below it, and keeps what it had |
| `PropModel.GenerateModel` | src/aigprop.c:433-447 | the model holds exactly the nodes reachable from the roots, with their values when all inputs are false |
| `PropModel.ComputeScore` | src/aigprop.c:120-273 | the entries written are the scores defined from the inputs, for both phases of every node below |
| `PropModel.ComputeScores` | src/aigprop.c:275-340 | the same for all roots |
| `PropCone.CollectParents` | src/aigprop.c:949-1005 | the parent table has exactly the reachable nodes and, for each, exactly its reachable parents |
| `PropCone.CollectCone` | src/aigprop.c:546-568 | climbing the parent table gives exactly the reachable nodes that depend on the input |
| `PropCone.UpdateUnsatRight` | src/aigprop.c:451-488 | flipping a root keeps the table of false roots exact if and only if its complement is not a root too |
| `PropSearch.AigProp.constructor` | src/aigprop.c:1110-1135 | a fresh search has empty tables and zero counters |
| `PropSearch.AigProp.SetAssignment` | src/aigprop.c:570-620 | flipping the assignment of one node keeps the table of false roots exact |
| `PropSearch.AigProp.UpdateModel` | src/aigprop.c:595-625 | after the pass over the cone, sorted by id, every node has its value under the new inputs |
| `PropSearch.AigProp.UpdateScores` | src/aigprop.c:626-704 | after the pass over the cone every score is that under the new inputs |
| `PropSearch.AigProp.UpdateCone` | src/aigprop.c:490-704 | after a flip the model, the table of false roots and all scores are those a full recomputation from the changed inputs gives |
| `PropSearch.AigProp.ScoreMeans` | src/aigprop.c:120-273 | in every state of the search a stored score is 1 exactly when the literal is assigned true, and below 1 on a false root |
| `PropSearch.AigProp.ScoreBalance` | src/aigprop.c:120-273 | in every state of the search the stored scores of a node are the mean, and for the complement the maximum, of those stored for its operands, and 1 and 0 for an input |
| `PropSearch.AigProp.BanditRoot` | src/aigprop.c:722-753 | the loop picks the root that a declarative choice on the list of values picks: the first one unless a later value is above 0, then the first of the greatest; only the count of the first root rises |
| `PropSearch.AigProp.ListRoots` | src/aigprop.c:722-726 | iterating the table meets every false root once |
| `PropSearch.AigProp.SelectRoot` | src/aigprop.c:708-782 | a root is always found, it is false and its score is below 1; with the bandit it is the best one of the order of the table, and all tables stay exact |
| `PropSearch.MaxStepsAre` | src/aigprop.c:46-48 | every other round has 100 moves, and the rounds in between double theirs |
| `PropSearch.OneBestRoot` | src/aigprop.c:737-752 | the choice of the bandit is determined by the values |
| `PropScore.RightComplementExact` | src/aigprop.c:658-664 | the score that update_cone reads for the complement of a right child is right if and only if the child is not a constant |
| `PropSearch.AigProp.SelectMove` | src/aigprop.c:784-886 | the walk goes from the root to an operand of each AND, the false one if just one is false, with one propagation for each step; it ends at an input below the root whose assignment flips, or at an AND when the propagation limit is reached |
| `PropSearch.AigProp.Move` | src/aigprop.c:888-920 | one move flips exactly the input at the end of a walk down from the chosen false root and keeps all tables exact; without a move the walk ends at the propagation limit, and nothing changes but the propagation count |
| `PropSearch.AigProp.CollectUnsat` | src/aigprop.c:1012-1027 | the pass over the roots answers no exactly when they contain false or a complementary pair, and otherwise the table is exact |
| `PropSearch.AigProp.StartRound` | src/aigprop.c:1012-1030 | after the pass and the scores all tables of the search are exact |
| `PropSearch.AigProp.Round` | src/aigprop.c:1034-1046 | a round answers SAT only if all roots are true, never UNSAT, and gives up only at the propagation limit |
| `PropSearch.AigProp.Sat` | src/aigprop.c:925-1083 | SAT: the final model satisfies all roots; UNSAT exactly when the roots contain false or a complementary pair, and then no assignment satisfies them; UNKNOWN only at the propagation limit; with restarts the number of moves lies in the budget of the rounds, without them there is one round; the tables are empty again |
| `PropSearch.ContradictoryUnsat` | src/aigprop.c:1020-1022 | such roots have no satisfying assignment |
| `Simplified.FinalInverted` | src/bzlacore.c:2164-2212 | the representative of an inverted edge is the inverted representative |
| `Simplified.NodeTable.SetSimplified` | src/bzlacore.c:2122-2161 | linking a node to a representative, whether it had a link or not, moves exactly the chains that come to the node there, with the right parity, and stays acyclic |
| `Simplified.UptoEnd` | src/bzlacore.c:2122-2161 | for a node without a link these are the chains that end in it |
| `Simplified.NodeTable.Chase` | src/bzlacore.c:2164-2190 | the walk ends at the representative with the inversion parity of the whole chain |
| `Simplified.NodeTable.Shorten` | src/bzlacore.c:2191-2212 | every node on the path then points straight at its representative and no other node changes |
| `Simplified.NodeTable.GetSimplified` | src/bzlacore.c:2214-2241 | the final representative and parity are returned, every node keeps its own, and the path is straight afterwards |

## Left out

- SAT solver calls and `simp_aig_by_sat`: external. Clauses go to a list, and the solver is taken to be absent inside
  `bzla_aig_and`.
- Node records: the fields `refs`, `next`, `cnf_id`, `mark`, `local` are parallel tables indexed by node id, and expression
  nodes are entries of a table; pointer tagging and allocation are not modelled.
- The reverse table `cnfid2aig`, and the reuse of released CNF ids: a released id is never handed out again.
- The disabled compile-time options of the encoder (`BZLA_AIG_TO_CNF_TOP_ELIM`, `BZLA_AIG_TO_CNF_NARY_AND`,
  `BZLA_EXTRACT_TOP_LEVEL_MULTI_OR`), and the two `assert`s on `local` and `refs` in its traversal.
- AigCnf.ToSatTseitin: the encodable state asks that every variable under an AND has another holder, because `is_xor_aig` and
  `is_ite_aig` read the children of a negated unshared child without testing its kind (src/bzlaaig.c:912-930).
- AigCnf.Perform: a caller that gives back the last outside reference to a variable still used by an AND loses the encodable
  state, as in the source.
- AigSynth.ExpTable.Synthesize: constants, variables, slices, the binary bit-vector operators and if-then-else. Floating point,
  functions, applies, lambdas (with the restart they can cause) and back annotation are not modelled. The encoder is called for the
  root of a constraint (`BitBlast.AssertConstraint`), not between the nodes as well.
- BitBlast.ProcessConstraints: the constraints that word-blasting adds, and the reports.
- AigShift.MakeShift: the source has separate code for left and right; one method with a direction stands for both.
- BvPropMul.PropMul: the `no_overflows` path is not modelled; only disabled code starts from it.
- BvProp.PropAdd: nor is it here.
- `bvprop_shift_aux`, which shifts `1u` by up to the width, and shift-by-constant amounts of 2^32 and more.
- BvProp.Run: the loops of the composed propagators are lists of steps over a store of domains instead of local variables
  overwritten one by one. The order of the steps and the test for progress are those of the source.
- BvPropDiv.PropDivision: on a conflict the result domain of x may be invalid, as in the source, so nothing is said of it then.
- BvPropCond.PropCond: on a conflict no validity of the result domains is claimed; likewise for the basic propagators.
- Random picks (generators, roots, moves, positions of a bit) are left open: the contracts hold for every choice.
- PropSearch.AigProp.SelectRoot: the addend `BZLA_AIGPROP_SELECT_CFACT * sqrt(log(selected) / nmoves)` is a parameter whose value may
  be undefined; the order in which the table is iterated is left open.
- BvConsArith.IsConsUdivSecond: only the divisor position; the helper of the other one is in a file that is not part of this model.
- BvConsArith.IsConsUremSecond: the same.
- The always-true consistency checks for add, xor and eq.
- BvWheel.Factors: not for all factors in a one-bit word, where the source does not return (`OneBitFactors`); the selection of a
  factor (or of a random product of factors) from the stream in `bzla_bvdomain_get_factor`.
- `bzla_bvdomain_sll` and the string conversions of domains.
- BvRef: the operators of `src/bzlabv.c` are given as functions on naturals below 2^w; GMP limbs, hashing and printing are left out.
- PropSearch.AigProp.Sat: scores are exact reals, so rounding is not modelled. The search need not end, so a bound on the number of
  moves and the answer `Running` stand for a run that is still going; the step limit of a round does not wrap.
- Logging and statistics of the search; `update_cone` without a table of scores.
- Overflow aborts of ids and counts, cloning, model and clone checkers, timing and messages.

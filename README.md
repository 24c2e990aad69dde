# A verified model of the Qualtran / cirq_qubitization core

This project models, in Dafny, the parts of the Qualtran quantum-algorithm library (and of
its predecessor cirq_qubitization) that do exact, discrete work. It proves what those parts
promise. There is one module per source file:

- **Resource counting** (`CallGraph`). A bloq's call graph is built with memoisation:
  - callees are generalised and their counts merged;
  - expansion stops at `keep`, at `max_depth`, or at a bloq without callees;
  - leaf totals (sigma) are folded in reverse topological order.

  The module also covers `build_cbloq_call_graph` and the symbol allocator.
- **Exact rings for rotation synthesis**:
  - `ZSqrt2Ring`: Z[√2] with its arithmetic, conjugate, norm, floor division, order, power and gcd;
  - `ZOmegaRing`: Z[ω], ω = e^{iπ/4}, with the same set of operations.
- **Grid operators** (`GridOperators`): 2×2 matrices over Z[√2] scaled by 1/√2, with their
  product, power, shift, √2-conjugate, scaled inverse and action on points.
- **The relative-norm solver** (`RelativeNorm`, `RelativeNormIdeals`, `RelativeNormSolver`):
  `factor_into_generators`, `compute_w`, `_get_root` and `solve`. The solver finds v with
  v·v* = r.
- **Clifford+T matrices over Z[ω]** (`SU2CliffordT`, `SU2Gates`, `SU2Validity`,
  `SU2Parametric`, `SU2Cliffords`):
  - product, adjoint, determinant and scale-down;
  - the gate table and `from_sequence`;
  - `is_valid`, the parametric form and `generate_cliffords`.
- **Point collectors** (`PointCollectors`): the simple collector and the split-region collector
  of the synthesis protocol.
- **Controlled bloqs** (`ControlledBloqs`):
  - `CtrlSpec`, with its validation, bit count, `is_active` and equality;
  - the control-register naming;
  - the controlled call graph and the classical action.
- **Modular arithmetic** (`ModDivision`, `ModMultiplication`):
  - the six Kaliski iteration steps and the modular inverse they compute;
  - `ModDbl` and `CModMulK`.
- **Swaps, comparators and bit tools** (`SwapBloqs`, `ArithmeticGates`, `BitTools`).
- **Registers and qubits** (`GateRegisters`, `QubitManager`): register layout, splitting and
  merging of qubits and integers, and the greedy qubit manager.
- **Composite bloqs** (`CompositeBloqs`): the builder that hands out and consumes each soquet
  exactly once, and the instance graph.
- **The musical-score slot allocator** (`MusicalScore`), and **magic-state factory costs**
  (`MagicStateFactory`).

Where the source updates state in place, the model does too:
- a `class` with `modifies` clauses: the qubit manager, the builder, the collectors, the
  allocators and the call-graph `DiGraph`;
- loops with invariants, for the source's loops.

Pure code becomes functions with lemmas. Python's exceptions and assertion failures become
`Result`/`Option` error values (`wrappers.dfy`). Python's floor division and modulo are written
out in `pyint.dfy`, and `str(n)` in `pystr.dfy`. `monoid.dfy` states powers once for any
associative operation with an identity; the grid operators use it.

## Model

| member | source | states |
|---|---|---|
| PyStr.DecimalInjective | qualtran/resource_counting/_call_graph.py:66 | distinct non-negative counters print as distinct digit strings, so `str(counter)` never repeats for one prefix |
| CallGraph.SymbolNameAsWrittenInjective | qualtran/resource_counting/_call_graph.py:64-68 | for one prefix, the names `f'_{prefix}{i}'` determine the counter |
| CallGraph.AsWrittenNamesCollide | qualtran/resource_counting/_call_graph.py:66 | as written, the 11th symbol for prefix "a" and the 1st for prefix "a1" are the same name |
| CallGraph.TrailingDigitsAfterSeparator | qualtran/resource_counting/_call_graph.py:66 | after a separator, the trailing digits are exactly the counter's |
| CallGraph.SymbolNameInjective | qualtran/resource_counting/_call_graph.py:66 | with a separator before the counter, a name determines both its prefix and its counter |
| CallGraph.SymbolAllocator.constructor | qualtran/resource_counting/_call_graph.py:61-62 | a new allocator has every counter at 0 and has issued nothing |
| CallGraph.SymbolAllocator.NewSymbol | qualtran/resource_counting/_call_graph.py:64-68 | returns `'_' + prefix + str(counter)`, raises that prefix's counter by one, and the name was never issued before for that prefix |
| CallGraph.TotalUpdate | qualtran/resource_counting/_call_graph.py:79-81 | setting one count changes the total by the difference |
| CallGraph.BuildCbloqCallGraph | qualtran/resource_counting/_call_graph.py:71-83 | maps each bloq to the number of instances holding it, has no other key, and the counts add up to the number of instances |
| CallGraph.FindKey | qualtran/resource_counting/_call_graph.py:104 | the position of a bloq's entry in the dict's items, or none |
| CallGraph.WeightAt | qualtran/resource_counting/_call_graph.py:104-105 | in a list with distinct keys, the weight of a key is its entry's value |
| CallGraph.MergeWeight | qualtran/resource_counting/_call_graph.py:104 | `d[g] += n` adds n to g's weight and leaves every other weight |
| CallGraph.MergeKeys | qualtran/resource_counting/_call_graph.py:104-105 | `d[g] += n` keeps the key order and appends g when it is new |
| CallGraph.GeneralizedDistinctKeys | qualtran/resource_counting/_call_graph.py:86-105 | the merged list holds each generalized callee at most once |
| CallGraph.GeneralizedKeys | qualtran/resource_counting/_call_graph.py:99-105 | the merged list has an entry for g exactly when some raw callee generalizes to g |
| CallGraph.GeneralizedWeight | qualtran/resource_counting/_call_graph.py:99-105 | g's entry is the sum of the multiplicities of every raw callee that generalizes to g |
| CallGraph.DroppedCalleeCounts | qualtran/resource_counting/_call_graph.py:100-103 | a callee whose generalization is None contributes to no entry |
| CallGraph.ItemsBump | qualtran/resource_counting/_call_graph.py:104 | adding to an existing key updates its item in place |
| CallGraph.ItemsAppend | qualtran/resource_counting/_call_graph.py:104 | a new key appends its item |
| CallGraph.GeneralizeCallees | qualtran/resource_counting/_call_graph.py:86-105 | the dict's items are the merged list |
| CallGraph.CalleeCounts | qualtran/resource_counting/_call_graph.py:108-146 | the generalized callees when build_call_graph succeeds; a decomposition error is the empty list when ignored and is re-raised otherwise |
| CallGraph.GetBloqCalleeCounts | qualtran/resource_counting/_call_graph.py:108-146 | the loop computes CalleeCounts |
| CallGraph.ExpansionInUniverse | qualtran/resource_counting/_call_graph.py:186-191 | the callees of a bloq of a closed universe are in it |
| CallGraph.Bump | qualtran/resource_counting/_call_graph.py:194-197 | `n` added to an existing edge, or a new edge with count n |
| CallGraph.CountsMapWeight | qualtran/resource_counting/_call_graph.py:186-197 | the edge count from u to v is the sum of all multiplicities returned for v by u |
| CallGraph.CompleteEdges | qualtran/resource_counting/_call_graph.py:163-197 | an expanded node has an edge to v exactly when some callee generalizes to v, with the summed multiplicity |
| CallGraph.LeafEdges | qualtran/resource_counting/_call_graph.py:168-183 | a node kept by keep, at the depth bound, or without callees has no out-edge |
| CallGraph.AddScaled | qualtran/resource_counting/_call_graph.py:216-217 | `sigma[k] += callee_sigma[k] * n` for every key, on a defaultdict |
| CallGraph.AddScaledInto | qualtran/resource_counting/_call_graph.py:216-217 | the inner loop computes AddScaled |
| CallGraph.AddScaledSwap | qualtran/resource_counting/_call_graph.py:212-217 | adding two scaled sigmas is independent of their order |
| CallGraph.CombineRemove | qualtran/resource_counting/_call_graph.py:212-217 | the sum over successors does not depend on which successor comes last |
| CallGraph.CombineKeys | qualtran/resource_counting/_call_graph.py:212-217 | every key of a node's sigma comes from some successor's sigma |
| CallGraph.CombineInto | qualtran/resource_counting/_call_graph.py:212-217 | the loop over the successors computes their weighted sum |
| CallGraph.DiGraph.constructor | qualtran/resource_counting/_call_graph.py:259 | an empty graph |
| CallGraph.DiGraph.AddNode | qualtran/resource_counting/_call_graph.py:166 | adds a node with no out-edge |
| CallGraph.DiGraph.AddToEdge | qualtran/resource_counting/_call_graph.py:194-197 | adds n to the edge's count, creating the edge with n when it is new, and changes no other row |
| CallGraph.DiGraph.Build | qualtran/resource_counting/_call_graph.py:149-197 | never expands a node already in g; every node it adds has exactly the out-edges its expansion asks for (none for a leaf by keep, depth or no callees), and earlier nodes keep theirs; a new bloq gets the depth it was called with, and every other node it adds hangs one level below a node with an edge to it |
| CallGraph.DiGraph.Expand | qualtran/resource_counting/_call_graph.py:177-197 | a node neither kept nor at the depth bound gets the summed callee counts as its out-edges, or none when it has no callees, and each node the loop adds hangs one level below a node with an edge to it |
| CallGraph.DiGraph.VisitAll | qualtran/resource_counting/_call_graph.py:186-197 | after the loop, bloq's row is the summed counts of its callee list, and every node the loop added sits one level below a node with an edge to it |
| CallGraph.DiGraph.Visit | qualtran/resource_counting/_call_graph.py:186-197 | builds the callee at depth one below bloq first, then adds n to the edge; a newly added callee is parented by that edge |
| CallGraph.DiGraph.PickReady | qualtran/resource_counting/_call_graph.py:204 | a remaining node whose successors are all placed, or evidence that every remaining node has a remaining successor |
| CallGraph.DiGraph.PlaceAll | qualtran/resource_counting/_call_graph.py:204 | either places every node after all its successors, or finds a cycle |
| CallGraph.DiGraph.ReverseTopologicalSort | qualtran/resource_counting/_call_graph.py:204 | `reversed(topological_sort(g))`: every node after all its successors, or the graph has a cycle |
| CallGraph.DiGraph.CycleFound | qualtran/resource_counting/_call_graph.py:204 | a non-empty set of nodes each of which calls into it is a cycle |
| CallGraph.DiGraph.OrderedAcyclic | qualtran/resource_counting/_call_graph.py:204 | a graph that has a reverse topological order has no cycle, so `topological_sort` fails exactly on a cycle |
| CallGraph.DiGraph.NodeSigma | qualtran/resource_counting/_call_graph.py:205-217 | a node without successors counts one of itself; otherwise the sum of n(u, v)·sigma(v) over its successors |
| CallGraph.DiGraph.SigmaOfLeaves | qualtran/resource_counting/_call_graph.py:205-217 | a sigma only counts leaves |
| CallGraph.DiGraph.SigmasDone | qualtran/resource_counting/_call_graph.py:204-220 | after the whole order every node's sigma satisfies its equation |
| CallGraph.DiGraph.SigmaTableUnique | qualtran/resource_counting/_call_graph.py:200-220 | on a graph without a cycle, two tables that both satisfy every node's sigma equation are equal, so the sigma the fold returns is determined by the graph |
| CallGraph.DiGraph.ComputeSigma | qualtran/resource_counting/_call_graph.py:200-220 | succeeds exactly when the graph has no cycle, with the root's entry of a table satisfying every node's sigma equation, whose keys are only leaves; fails with CallCycle on a cycle |
| CallGraph.GetBloqCallGraph | qualtran/resource_counting/_call_graph.py:223-269 | ValueError exactly when the root generalizes to None; otherwise it builds a graph from the generalized root at depth 0 in which every node is complete, every other node sits one level below a node with an edge to it, and each depth is the length of a path from the root. It succeeds exactly when that graph has no cycle, returning the graph with the root's sigma, the only one the sigma equations allow. A failure means the built graph, and hence the bloqs' calls, contain a cycle |
| CallGraph.DepthIsPathLength | qualtran/resource_counting/_call_graph.py:163-197 | when the root has depth 0 and every other node hangs one level below a caller, the depth of each node is the length of a path from the root to it |
| CallGraph.ParentedEdge | qualtran/resource_counting/_call_graph.py:189-197 | adding the edge from bloq to a callee first reached one level below it parents that callee, and existing parent links stay |
| CallGraph.CycleOfCalls | qualtran/resource_counting/_call_graph.py:186-204 | a cycle of the built graph is a cycle of generalized calls |
| CallGraph.EdgeIsCall | qualtran/resource_counting/_call_graph.py:186-197 | an out-edge of a completed node goes to one of its generalized callees |
| ZSqrt2Ring.ScaleIsMul | qualtran/rotation_synthesis/rings/zsqrt2.py:57-69 | the integer branch of `__mul__` (scale both coordinates) is multiplication by the embedded integer k + 0√2 |
| ZSqrt2Ring.MulComm | qualtran/rotation_synthesis/rings/zsqrt2.py:57-63 | the product (ac + 2bd) + (ad + bc)√2 is commutative |
| ZSqrt2Ring.MulAssoc | qualtran/rotation_synthesis/rings/zsqrt2.py:57-63 | the product is associative |
| ZSqrt2Ring.MulAddDistrib | qualtran/rotation_synthesis/rings/zsqrt2.py:57-63 | the product distributes over `__add__` and `__sub__` (see also lines 88-100) |
| ZSqrt2Ring.MulOne | qualtran/rotation_synthesis/rings/zsqrt2.py:57-63 | One is a two-sided identity of the product |
| ZSqrt2Ring.MulValue | qualtran/rotation_synthesis/rings/zsqrt2.py:49-63 | for any real s with s² = 2, the value a + s·b of a product is the product of the values |
| ZSqrt2Ring.AddValue | qualtran/rotation_synthesis/rings/zsqrt2.py:49-55 | the value of a sum (difference) is the sum (difference) of the values (see also lines 88-100) |
| ZSqrt2Ring.ConjProperties | qualtran/rotation_synthesis/rings/zsqrt2.py:102-108 | conj is an involution, x·conj(x) is the integer a² − 2b² (b part zero), its absolute value is norm(x), and conj preserves the norm (see also lines 220-222) |
| ZSqrt2Ring.ConjValue | qualtran/rotation_synthesis/rings/zsqrt2.py:49-55 | the value of conj(x) is a − s·b (see also lines 102-104) |
| ZSqrt2Ring.NormMultiplicative | qualtran/rotation_synthesis/rings/zsqrt2.py:220-222 | norm(x·y) = norm(x)·norm(y) |
| ZSqrt2Ring.SignedNormZero | qualtran/rotation_synthesis/rings/zsqrt2.py:220-222 | a² = 2b² only for a = b = 0 (√2 is irrational) |
| ZSqrt2Ring.NormZero | qualtran/rotation_synthesis/rings/zsqrt2.py:220-222 | norm(x) = 0 exactly when x is Zero |
| ZSqrt2Ring.FloorDiv | qualtran/rotation_synthesis/rings/zsqrt2.py:113-117 | `x // y` for y ≠ 0: x·conj(y) with each coordinate floor-divided by the signed norm of y; exact on divisible inputs by FloorDivExact |
| ZSqrt2Ring.IsDivisibleBy | qualtran/rotation_synthesis/rings/zsqrt2.py:119-123 | `is_divisible_by` for y ≠ 0: both coordinates of x·conj(y) are multiples of the norm of y; it decides ring divisibility by IsDivisibleByDecidesDivides |
| ZSqrt2Ring.IsDivisibleByDecidesDivides | qualtran/rotation_synthesis/rings/zsqrt2.py:113-123 | for y ≠ 0, `is_divisible_by` holds iff some q has q·y = x, and then `x // y` is that exact quotient |
| ZSqrt2Ring.FloorDivExact | qualtran/rotation_synthesis/rings/zsqrt2.py:113-123 | when `is_divisible_by(x, y)`, (x // y)·y = x |
| ZSqrt2Ring.MultipleIsDivisible | qualtran/rotation_synthesis/rings/zsqrt2.py:119-123 | every multiple q·y passes `is_divisible_by(·, y)` |
| ZSqrt2Ring.DivideBySqrt2 | qualtran/rotation_synthesis/rings/zsqrt2.py:125-134 | the ValueError (None) exactly when a is odd; otherwise the result times √2 is the input |
| ZSqrt2Ring.LtAgreesWithValue | qualtran/rotation_synthesis/rings/zsqrt2.py:143-165 | the integer-only `__lt__` holds iff a + b√2 < c + d√2 as reals, for s = √2 |
| ZSqrt2Ring.LeAgreesWithValue | qualtran/rotation_synthesis/rings/zsqrt2.py:167-176 | `__le__`, `__gt__` and `__ge__` agree with the real order |
| ZSqrt2Ring.ValueInjective | qualtran/rotation_synthesis/rings/zsqrt2.py:49-55 | elements with the same real value are equal, so `__eq__` on coordinates is equality of values (see also lines 136-138) |
| ZSqrt2Ring.PowAdd | qualtran/rotation_synthesis/rings/zsqrt2.py:71-86 | x^(p+q) = x^p · x^q for the p-fold product |
| ZSqrt2Ring.PowSquare | qualtran/rotation_synthesis/rings/zsqrt2.py:77-81 | (x·x)^k = x^(2k), the squaring step of `_power` |
| ZSqrt2Ring.PowValue | qualtran/rotation_synthesis/rings/zsqrt2.py:49-86 | the value of x^p is the p-th power of the value of x |
| ZSqrt2Ring.PowHomomorphism | qualtran/rotation_synthesis/rings/zsqrt2.py:71-86 | any multiplicative map sending One to 1 sends x^p to the p-th power of its image |
| ZSqrt2Ring.Power | qualtran/rotation_synthesis/rings/zsqrt2.py:71-82 | `_power`'s binary exponentiation loop returns the p-fold product (One for p = 0) |
| ZSqrt2Ring.PowChecked | qualtran/rotation_synthesis/rings/zsqrt2.py:84-86 | `__pow__`: the assertion (None) exactly for a negative exponent, otherwise the p-fold product |
| ZSqrt2Ring.EuclidStep | qualtran/rotation_synthesis/rings/zsqrt2.py:189-196 | one of the four candidates c + d with d ∈ {0,1}² leaves a remainder of smaller norm than x, so the loop's assertion never fails |
| ZSqrt2Ring.Candidates | qualtran/rotation_synthesis/rings/zsqrt2.py:189-197 | the candidate loop returns y − r·x with norm below norm(x) for some quotient r |
| ZSqrt2Ring.GcdIsGreatest | qualtran/rotation_synthesis/rings/zsqrt2.py:178-198 | every common divisor of x and y divides a gcd of x and y |
| ZSqrt2Ring.MulCancel | qualtran/rotation_synthesis/rings/zsqrt2.py:57-63 | multiplication by a nonzero element is injective |
| ZSqrt2Ring.QuotientsCoprime | qualtran/rotation_synthesis/rings/zsqrt2_test.py:88-94 | for a nonzero gcd g of x and y, One is a gcd of x/g and y/g |
| ZSqrt2Ring.GcdOfCoprimeIsUnit | qualtran/rotation_synthesis/rings/zsqrt2_test.py:88-94 | any gcd of two coprime elements has norm 1, i.e. is a unit |
| ZSqrt2Ring.Gcd | qualtran/rotation_synthesis/rings/zsqrt2.py:178-198 | One for gcd(0, 0); otherwise a nonzero g dividing both operands and equal to u·x + v·y (a gcd), the loop terminating as the norm falls |
| ZOmegaRing.MulComm | qualtran/rotation_synthesis/rings/zw.py:99-106 | the negacyclic product (ω⁴ = −1) is commutative |
| ZOmegaRing.MulAssoc | qualtran/rotation_synthesis/rings/zw.py:99-106 | the product is associative |
| ZOmegaRing.MulAddDistrib | qualtran/rotation_synthesis/rings/zw.py:99-123 | the product distributes over `__add__` and `__sub__` |
| ZOmegaRing.MulOne | qualtran/rotation_synthesis/rings/zw.py:99-106 | One is a two-sided identity (see also lines 287) |
| ZOmegaRing.MulFromInt | qualtran/rotation_synthesis/rings/zw.py:107-108 | multiplying by an int k, which the source embeds as (k, 0, 0, 0), scales every coordinate by k |
| ZOmegaRing.OmegaShifts | qualtran/rotation_synthesis/rings/zw.py:99-106 | ω·x shifts the coordinates one place and negates the one that wraps (ω⁴ = −1) (see also lines 289) |
| ZOmegaRing.OmegaPowers | qualtran/rotation_synthesis/rings/zw.py:286-289 | ω² = J (the element i) and ω·ω·J = −1 |
| ZOmegaRing.Sqrt2Squared | qualtran/rotation_synthesis/rings/zw.py:290 | SQRT_2 = ω − ω³ squares to the integer 2 |
| ZOmegaRing.ConjugationLaws | qualtran/rotation_synthesis/rings/zw.py:160-176 | conjugate (a, −d, −c, −b) and sqrt2_conjugate (a, −b, c, −d) are involutions and ring homomorphisms |
| ZOmegaRing.PartialComplete | qualtran/rotation_synthesis/rings/zw.py:101-106 | the sixteen signed accumulations `c[(i + j) & 3] += sgn·xᵢ·yⱼ` add up to the negacyclic product |
| ZOmegaRing.MulLoop | qualtran/rotation_synthesis/rings/zw.py:99-106 | the nested loop of `__mul__` returns the negacyclic product |
| ZOmegaRing.FromPairToZSqrt2 | qualtran/rotation_synthesis/rings/zw.py:178-207 | from_pair(*x.to_zsqrt2()) == x for every x (see also qualtran/rotation_synthesis/rings/zw_test.py:94-96) |
| ZOmegaRing.ToZSqrt2FromPair | qualtran/rotation_synthesis/rings/zw.py:178-207 | to_zsqrt2(from_pair(α, β, w)) gives back (α, β, w), so the representation is unique |
| ZOmegaRing.ToZSqrt2NeedsW | qualtran/rotation_synthesis/rings/zw.py:201-207 | ω is needed exactly when the coordinates of ω and ω³ have an odd sum |
| ZOmegaRing.NormProductIsInteger | qualtran/rotation_synthesis/rings/zw.py:209-211 | the four-fold product of `norm` has only coordinate 0 nonzero, equal to P² − 2Q² for x·conj(x) = P + Q√2 (the first assertion of `norm` holds) |
| ZOmegaRing.NormNonnegative | qualtran/rotation_synthesis/rings/zw.py:209-213 | P² − 2Q² ≥ 0 for every element (the second assertion of `norm` holds) |
| ZOmegaRing.Norm | qualtran/rotation_synthesis/rings/zw.py:209-213 | the result is a natural number and the four-fold product is that integer embedded |
| ZOmegaRing.NormZero | qualtran/rotation_synthesis/rings/zw.py:209-213 | norm(x) = 0 exactly when x is Zero |
| ZOmegaRing.AbsSquared | qualtran/rotation_synthesis/rings/zw.py:160-167 | x·conj(x) lies in Z[√2]: the result embedded back is x·conj(x) (see also lines 209-210) |
| ZOmegaRing.EmbedMul | qualtran/rotation_synthesis/rings/zw.py:99-106 | the embedding a + b√2 ↦ (a, b, 0, −b) respects multiplication (see also lines 290) |
| ZOmegaRing.NormIsSqrt2Norm | qualtran/rotation_synthesis/rings/zw.py:209-213 | the Z[ω] norm is the Z[√2] norm of x·conj(x) (see also qualtran/rotation_synthesis/rings/zsqrt2.py:220-222) |
| ZOmegaRing.AbsSquaredMultiplicative | qualtran/rotation_synthesis/rings/zw.py:160-167 | the squared modulus of a product is the product of the squared moduli |
| ZOmegaRing.NormMultiplicative | qualtran/rotation_synthesis/rings/zw.py:209-213 | norm(x·y) = norm(x)·norm(y) |
| ZOmegaRing.CofactorProduct | qualtran/rotation_synthesis/rings/zw.py:215-223 | the numerator of `//` and `is_divisible_by` is x times the cofactor of y, and y times its cofactor is the integer norm(y) |
| ZOmegaRing.FloorDiv | qualtran/rotation_synthesis/rings/zw.py:215-218 | `x // y` for y ≠ 0: the numerator x·cofactor(y) with each coordinate floor-divided by Norm(y); exact on divisible inputs by FloorDivExact |
| ZOmegaRing.IsDivisibleBy | qualtran/rotation_synthesis/rings/zw.py:220-223 | `is_divisible_by` for y ≠ 0: every coordinate of the numerator is a multiple of Norm(y); it decides ring divisibility by IsDivisibleByDecidesDivides |
| ZOmegaRing.IsDivisibleByDecidesDivides | qualtran/rotation_synthesis/rings/zw.py:215-223 | for y ≠ 0, `is_divisible_by` holds iff some q has q·y = x, and then `x // y` is that exact quotient |
| ZOmegaRing.FloorDivExact | qualtran/rotation_synthesis/rings/zw.py:215-223 | when `is_divisible_by(x, y)`, (x // y)·y = x |
| ZOmegaRing.MultipleIsDivisible | qualtran/rotation_synthesis/rings/zw.py:220-223 | every multiple q·y passes `is_divisible_by(·, y)` |
| ZOmegaRing.CancelCofactor | qualtran/rotation_synthesis/rings/zw.py:215-218 | for y ≠ 0 the cofactor of y cancels, so the quotient of an exact division is unique |
| ZOmegaRing.PowAdd | qualtran/rotation_synthesis/rings/zw.py:134-149 | x^(p+q) = x^p · x^q for the p-fold product |
| ZOmegaRing.PowSquare | qualtran/rotation_synthesis/rings/zw.py:144-148 | (x·x)^k = x^(2k), the squaring step of the loop |
| ZOmegaRing.Power | qualtran/rotation_synthesis/rings/zw.py:134-149 | ValueError for a negative exponent, One for 0, otherwise the binary-exponentiation loop returns the p-fold product |
| ZOmegaRing.GcdIsGreatest | qualtran/rotation_synthesis/rings/zw.py:225-243 | every common divisor of x and y divides a gcd of x and y |
| ZOmegaRing.MulCancel | qualtran/rotation_synthesis/rings/zw.py:99-106 | multiplication by a nonzero element is injective |
| ZOmegaRing.QuotientsCoprime | qualtran/rotation_synthesis/rings/zw_test.py:120-128 | for a nonzero gcd g of x and y, One is a gcd of x/g and y/g |
| ZOmegaRing.GcdsSameNorm | qualtran/rotation_synthesis/rings/zw_test.py:120-128 | two gcds of the same pair have the same norm (the gcd is unique up to a unit) |
| ZOmegaRing.GcdOfCoprimeIsUnit | qualtran/rotation_synthesis/rings/zw_test.py:120-128 | any gcd of two coprime elements has norm 1 |
| ZOmegaRing.Candidates | qualtran/rotation_synthesis/rings/zw.py:234-240 | the loop over the sixteen offsets {0,1}⁴ returns y − r·x of the least norm among y and all sixteen remainders |
| ZOmegaRing.Gcd | qualtran/rotation_synthesis/rings/zw.py:225-243 | None when the assertion at line 241 fails; otherwise a g dividing both operands and equal to u·x + v·y (a gcd) |
| GridOperators.MakeGridOp | qualtran/rotation_synthesis/lattice/grid_operators.py:47-53 | construction succeeds exactly when the integer parts and the √2 parts each have an even sum, and then holds the given matrix |
| GridOperators.GridOpPassesPostInit | qualtran/rotation_synthesis/lattice/grid_operators.py:26-53 | every scaled grid operator of section 5.3 of Ross and Selinger (arXiv:1403.2975) passes the post-init check |
| GridOperators.DivideChar | qualtran/rotation_synthesis/rings/zsqrt2.py:125-134 | `divide_by_sqrt2(x)` gives y exactly when y·√2 = x |
| GridOperators.ComposeSpec | qualtran/rotation_synthesis/lattice/grid_operators.py:93-100 | `g @ h` is q exactly when q·√2 is the matrix product of g and h and q passes the post-init check |
| GridOperators.MatMul | qualtran/rotation_synthesis/lattice/grid_operators.py:93-100 | the in-place loop over a 2×2 array dividing each cell by √2 returns `g @ h` as ComposeSpec characterises it, None when a cell is not divisible or the result fails the check |
| GridOperators.ComposeClosed | qualtran/rotation_synthesis/lattice/grid_operators.py:93-100 | the product of two grid operators always divides by √2 and is again a grid operator |
| GridOperators.RawAssoc | qualtran/rotation_synthesis/lattice/grid_operators.py:95 | the unscaled matrix product is associative |
| GridOperators.ComposeIdentity | qualtran/rotation_synthesis/lattice/grid_operators.py:93-100 | ISqrt2 is a grid operator and a two-sided identity of `@` on every GridOperator (see also lines 197) |
| GridOperators.DotAssoc | qualtran/rotation_synthesis/lattice/grid_operators.py:93-100 | `@` is associative on grid operators |
| GridOperators.DotMonoid | qualtran/rotation_synthesis/lattice/grid_operators.py:55-65 | grid operators under `@` form a monoid with identity ISqrt2 (see also lines 93-100) |
| GridOperators.PowGrid | qualtran/rotation_synthesis/lattice/grid_operators.py:55-65 | every k-fold `@` of a grid operator is a grid operator |
| GridOperators.PowAddG | qualtran/rotation_synthesis/lattice/grid_operators.py:55-65 | g^(m+n) = g^m @ g^n |
| GridOperators.PowOne | qualtran/rotation_synthesis/lattice/grid_operators.py:55-57 | g^0 = ISqrt2 and g^1 = g |
| GridOperators.Power | qualtran/rotation_synthesis/lattice/grid_operators.py:55-65 | `__pow__`: ISqrt2 for k = 0, g for k = 1 or a negative k (the loop does not run), and for a grid operator and k ≥ 0 the k-fold `@` |
| GridOperators.LambdaPowInverse | qualtran/rotation_synthesis/lattice/grid_operators.py:76-84 | λ^k · λ^(−k) = 1 with λ⁻¹ = −1 + √2 (see also qualtran/rotation_synthesis/rings/zsqrt2.py:245-246) |
| GridOperators.ShiftFactors | qualtran/rotation_synthesis/lattice/grid_operators.py:76-90 | the `left` and `right` matrices built by `shift` pass the post-init check and are diag(1, λ^(−k))·√2 and diag(λ^k, 1)·√2 |
| GridOperators.ShiftedGrid | qualtran/rotation_synthesis/lattice/grid_operators.py:67-91 | a shift of a grid operator is a grid operator |
| GridOperators.Shift | qualtran/rotation_synthesis/lattice/grid_operators.py:67-91 | `left @ self @ right`: on a grid operator, the matrix with b scaled by λ^k and c by λ^(−k) |
| GridOperators.ShiftRoundTrip | qualtran/rotation_synthesis/lattice/grid_operators.py:67-91 | shift(k) then shift(−k) gives back the operator, and shift(0) changes nothing (see also qualtran/rotation_synthesis/lattice/grid_operators_test.py:78-81) |
| GridOperators.Sqrt2Conj | qualtran/rotation_synthesis/lattice/grid_operators.py:102-108 | the in-place loop conjugates each entry and changes nothing else |
| GridOperators.ConjEntriesInvolution | qualtran/rotation_synthesis/lattice/grid_operators.py:102-108 | conjugating twice gives back the operator, and the conjugate of a grid operator is one (see also qualtran/rotation_synthesis/lattice/grid_operators_test.py:70-75) |
| GridOperators.ConjDot | qualtran/rotation_synthesis/lattice/grid_operators.py:93-108 | the product of the conjugates is minus the conjugate of the product (conj(√2) = −√2) |
| GridOperators.AdjugateLeft | qualtran/rotation_synthesis/lattice/grid_operators.py:135-141 | adj(g)·g = det(g)·I for the unscaled product |
| GridOperators.AdjugateRight | qualtran/rotation_synthesis/lattice/grid_operators.py:135-141 | g·adj(g) = det(g)·I for the unscaled product |
| GridOperators.ScaledInverseDefined | qualtran/rotation_synthesis/lattice/grid_operators.py:138-139 | `scaled_inverse` passes its assertion exactly when det has b = 0 and a = ±2 |
| GridOperators.ScaledInversePos | qualtran/rotation_synthesis/lattice/grid_operators.py:138-141 | for det = 2 the result is the adjugate [[d, −b], [−c, a]] |
| GridOperators.ScaledInverseNeg | qualtran/rotation_synthesis/lattice/grid_operators.py:138-141 | for det = −2 the result is minus the adjugate |
| GridOperators.ScaledInverseSpec | qualtran/rotation_synthesis/lattice/grid_operators.py:135-141 | scaled_inverse(g) @ g = g @ scaled_inverse(g) = ISqrt2, and the inverse of a grid operator is one (see also qualtran/rotation_synthesis/lattice/grid_operators_test.py:45-47) |
| GridOperators.ScaledParts | qualtran/rotation_synthesis/lattice/grid_operators.py:149-154 | √2 times the real and imaginary parts of from_pair(α, β, w) are α√2 (+1 with w) and β√2 (+1 with w) (see also qualtran/rotation_synthesis/rings/zw.py:178-190) |
| GridOperators.FinishWSpec | qualtran/rotation_synthesis/lattice/grid_operators.py:152-166 | the ω branch of `apply` passes its assertions exactly under the stated parities and returns the point whose scaled parts are x' and y' |
| GridOperators.FinishPlainSpec | qualtran/rotation_synthesis/lattice/grid_operators.py:167-176 | the branch without ω passes its assertion exactly when the integer parts of x' and y' have an even sum, and returns the point with those scaled parts |
| GridOperators.ApplyCoords | qualtran/rotation_synthesis/lattice/grid_operators.py:143-176 | the result of `apply` has scaled parts a·X + b·Y and c·X + d·Y of the input's scaled parts X and Y |
| GridOperators.ApplyDefined | qualtran/rotation_synthesis/lattice/grid_operators.py:143-176 | on a grid operator no assertion of `apply` fails |
| GridOperators.ApplyIdentity | qualtran/rotation_synthesis/lattice/grid_operators.py:143-176 | ISqrt2 fixes every point (see also lines 197) |
| GridOperators.ApplyCompose | qualtran/rotation_synthesis/lattice/grid_operators.py:143-176 | g1.apply(g2.apply(z)) == (g1 @ g2).apply(z) on grid operators (see also qualtran/rotation_synthesis/lattice/grid_operators_test.py:123-126) |
| GridOperators.ApplyRoundTrip | qualtran/rotation_synthesis/lattice/grid_operators.py:135-176 | scaled_inverse().apply(apply(z)) == z (see also qualtran/rotation_synthesis/lattice/grid_operators_test.py:93-94) |
| GridOperators.RotationEntries | qualtran/rotation_synthesis/lattice/grid_operators.py:182-195 | the constants R, K, K•, X and Z hold the entries the source builds from λ, λ⁻¹ and their conjugates |
| GridOperators.HalfSigmaEntries | qualtran/rotation_synthesis/lattice/grid_operators.py:199-201 | HALF_SIGMA·√2 is √2·diag(λ, 1) |
| GridOperators.HalfSigmaInvEntries | qualtran/rotation_synthesis/lattice/grid_operators.py:203-205 | HALF_SIGMA_INV·√2 is √2·diag(λ⁻¹, 1) |
| GridOperators.NamedOperatorsValid | qualtran/rotation_synthesis/lattice/grid_operators.py:179-205 | every named operator passes the post-init check and is a grid operator |
| GridOperators.KConjIsConjugate | qualtran/rotation_synthesis/lattice/grid_operators.py:184-188 | K• is the √2-conjugate of K |
| GridOperators.MixedParityNotClosed | qualtran/rotation_synthesis/lattice/grid_operators.py:47-53 | a matrix whose a and b entries have odd and whose c entry has even integer part is no grid operator and its square fails (see also lines 93-100) |
| GridOperators.PostInitAdmitsNonGrid | qualtran/rotation_synthesis/lattice/grid_operators.py:47-53 | the matrix [[ZSqrt2(1, 0), ZSqrt2(1, 0)], [ZSqrt2(0, 0), ZSqrt2(0, 0)]] passes the post-init check, is no grid operator (its integer parts differ in parity), and `g @ g` fails |
| RelativeNorm.FactorIntoGenerators | qualtran/rotation_synthesis/relative_norm/clifford_t.py:33-52 | fails (the `mag > 1` assertion) exactly when some generator has norm at most 1, naming the first; otherwise r == u · ∏ ηᵢ^eᵢ with one exponent per generator, and no generator divides u |
| RelativeNorm.DivisionShrinks | qualtran/rotation_synthesis/relative_norm/clifford_t.py:47-49 | each exact division by a generator of norm above 1 leaves a nonzero quotient of smaller norm, so the inner while loop ends |
| RelativeNorm.MaximalKept | qualtran/rotation_synthesis/relative_norm/clifford_t.py:38-51 | dividing u leaves no earlier generator dividing the quotient, so the exponents stay maximal |
| RelativeNorm.ComputeW | qualtran/rotation_synthesis/relative_norm/clifford_t.py:81-113 | the Pell loop raises exactly when | b | is no Pell number; otherwise the result is None for an odd exponent n, and (−1+√2)^(n/2) or (1+√2)^(n/2) by the sign of the coefficients |
| RelativeNorm.PellIncreasing | qualtran/rotation_synthesis/relative_norm/clifford_t.py:100-106 | the b values the loop walks through strictly increase, so it ends |
| RelativeNorm.PellUnique | qualtran/rotation_synthesis/relative_norm/clifford_t.py:100-107 | one | b | determines the exponent n |
| RelativeNorm.LambdaPell | qualtran/rotation_synthesis/relative_norm/clifford_t.py:86-106 | (1+√2)^n = A + Pell(n)·√2 with A ≥ 1 |
| RelativeNorm.LambdaSignedNorm | qualtran/rotation_synthesis/relative_norm/clifford_t.py:86-88 | (1+√2)^n has signed norm (−1)^n |
| RelativeNorm.LambdaInvConjPair | qualtran/rotation_synthesis/relative_norm/clifford_t.py:86-88 | (−1+√2)^n is the conjugate of (1+√2)^n for even n and minus it for odd n |
| RelativeNorm.EmbedPow | qualtran/rotation_synthesis/rings/zw.py:134-149 | powers of a real element of Z[ω] are the embeddings of powers in Z[√2] |
| RelativeNorm.AbsSquaredRealPow | qualtran/rotation_synthesis/relative_norm/clifford_t.py:110-113 | the squared modulus of x^k, x real, is x^(2k) |
| RelativeNorm.ComputeWOnUnits | qualtran/rotation_synthesis/relative_norm/clifford_t.py:81-113 | on every unit λ^m, m any integer: the exponent found is | m | , the answer exists exactly when m is even, and then its squared modulus is λ^m |
| RelativeNorm.NegativeEven | qualtran/rotation_synthesis/relative_norm/clifford_t.py:110-111 | on λ^(−n), n even, b is negative and (−1+√2)^(n/2) has squared modulus λ^(−n) |
| RelativeNorm.ComputeWMinusOne | qualtran/rotation_synthesis/relative_norm/clifford_t.py:95-113 | compute_w(−1) returns One although no v has v·v* = −1 |
| RelativeNorm.SquaresNonnegative | qualtran/rotation_synthesis/rings/zw.py:160-213 | the rational part of v·v* is a sum of squares, so never negative |
| RelativeNorm.ComputeWChecked | qualtran/rotation_synthesis/relative_norm/clifford_t.py:81-113 | compute_w with the sign check: the same failure cases, and otherwise None on a negative rational part |
| RelativeNorm.UnitShape | qualtran/rotation_synthesis/relative_norm/clifford_t.py:86-107 | a unit of norm 1 with a ≥ 0 and | b | = Pell(n), n even, is λ^n or its conjugate |
| RelativeNorm.WOfExponentCheckedSound | qualtran/rotation_synthesis/relative_norm/clifford_t.py:81-113 | for a unit of norm 1, the checked answer, when there is one, has squared modulus equal to the unit |
| RelativeNorm.CheckedOnUnits | qualtran/rotation_synthesis/relative_norm/clifford_t.py:81-113 | on the units λ^m the sign check changes nothing |
| RelativeNormIdeals.MakesPrimeReal | qualtran/rotation_synthesis/relative_norm/clifford_t.py:71-79 | a root accepted by `_get_root` makes v·χ real: it is the embedding of its Z[√2] part |
| RelativeNormIdeals.GetRoot | qualtran/rotation_synthesis/relative_norm/clifford_t.py:63-79 | returns the first of 1, ω, ω², ω³ that makes v·χ a real prime of Z[√2], or None when none does |
| RelativeNormIdeals.Info | qualtran/rotation_synthesis/relative_norm/clifford_t.py:24-30 | the IdealInfo of a prime ideal: χ is a gcd of the ideal and p, η is v·χ for a root v and χ·χ* otherwise, and isInert records whether a root exists (see also lines 128-138) |
| RelativeNormIdeals.Etas | qualtran/rotation_synthesis/relative_norm/clifford_t.py:140 | the generators passed to factor_into_generators, one per IdealInfo and in the same order |
| RelativeNormIdeals.IdealInfos | qualtran/rotation_synthesis/relative_norm/clifford_t.py:126-139 | one IdealInfo per prime ideal of the factorisation, in visiting order, with η = χ·χ* for every split ideal |
| RelativeNormIdeals.FlattenStep | qualtran/rotation_synthesis/relative_norm/clifford_t.py:126-127 | the prime ideals are visited prime by prime, each prime's ideals in order |
| RelativeNormIdeals.AbsSquaredPow | qualtran/rotation_synthesis/rings/zw.py:134-149 | the squared modulus of x^e is the e-th power of the squared modulus of x (see also lines 160-176) |
| RelativeNormIdeals.AssembleOne | qualtran/rotation_synthesis/relative_norm/clifford_t.py:145-155 | one pass of the last loop: None exactly for an inert ideal with an odd exponent; otherwise the squared modulus of m is multiplied by η^e |
| RelativeNormIdeals.AssembleInert | qualtran/rotation_synthesis/relative_norm/clifford_t.py:150-152 | an inert ideal with an even exponent e contributes η^(e/2), whose squared modulus is η^e |
| RelativeNormIdeals.AssembleSplit | qualtran/rotation_synthesis/relative_norm/clifford_t.py:155 | a split ideal contributes χ^e, whose squared modulus is η^e |
| RelativeNormIdeals.DescribedSplit | qualtran/rotation_synthesis/relative_norm/clifford_t.py:132-133 | for every split ideal, η = χ·χ* |
| RelativeNormSolver.Solve | qualtran/rotation_synthesis/relative_norm/clifford_t.py:115-156 | Zero for r = 0 and One for r = 1; otherwise r = u · ∏ ηᵢ^eᵢ with maximal exponents; an answer found for a remainder u that is a positive unit has v·v* = r; on r = −1 with nothing to factor it returns One (the finding below) |
| RelativeNormSolver.SolveChecked | qualtran/rotation_synthesis/relative_norm/clifford_t.py:115-156 | the same with the sign check in compute_w: every answer found for a unit remainder has v·v* = r, and r = −1 gets None |
| RelativeNormSolver.RemainderOf | qualtran/rotation_synthesis/relative_norm/clifford_t.py:140 | the remainder and exponents of factor_into_generators are the ones against which Solve's result is stated |
| RelativeNormSolver.SpecialCasesExact | qualtran/rotation_synthesis/relative_norm/clifford_t.py:124-127 | the answers Zero and One to r = 0 and r = 1 are exact |
| RelativeNormSolver.Assemble | qualtran/rotation_synthesis/relative_norm/clifford_t.py:145-156 | None exactly when some inert ideal has an odd exponent; otherwise the result's squared modulus is w·w* times ∏ ηᵢ^eᵢ |
| SU2CliffordT.ResidueMul | qualtran/rotation_synthesis/matrix/su2_ct.py:56-63 | the class of a product modulo √2 is the product of the classes, which decides the divisibility test of `@` |
| SU2CliffordT.Sqrt2Division | qualtran/rotation_synthesis/matrix/su2_ct.py:58-63 | `is_divisible_by(SQRT_2)` holds exactly when the even and the odd coordinate sums are both even, and `// SQRT_2` then gives the exact half (see also qualtran/rotation_synthesis/rings/zw.py:215-223) |
| SU2CliffordT.HalfWSpec | qualtran/rotation_synthesis/matrix/su2_ct.py:63 | the half of a multiple of √2 times √2 gives the element back |
| SU2CliffordT.LambdaDivision | qualtran/rotation_synthesis/matrix/su2_ct.py:90-96 | divisibility by 2 + √2 is the same parity test, and `// LAMBDA_KLIUCHNIKOV` is the exact quotient (see also qualtran/rotation_synthesis/rings/zw.py:215-223) |
| SU2CliffordT.Z2LambdaDivision | qualtran/rotation_synthesis/matrix/su2_ct.py:196-203 | in Z[√2], `det.is_divisible_by(l_v)` and `det // l_v` for l_v = 2 + √2 as closed forms |
| SU2CliffordT.ConjLaws | qualtran/rotation_synthesis/matrix/su2_ct.py:87-88 | conjugation in Z[ω] is multiplicative, an involution and commutes with negation (see also qualtran/rotation_synthesis/rings/zw.py:160-176) |
| SU2CliffordT.MatMul | qualtran/rotation_synthesis/matrix/su2_ct.py:56-63 | `g @ h` is defined exactly when every entry of the integral product is a multiple of √2; the result times √2 is that product; the gates are those of h followed by those of g |
| SU2CliffordT.MatMulClosed | qualtran/rotation_synthesis/matrix/su2_ct.py:26-63 | the product of two matrices of the form [[u, −v*], [v, u*]] with u ≡ v modulo √2 passes the assertion and is of the same form |
| SU2CliffordT.Det | qualtran/rotation_synthesis/matrix/su2_ct.py:98-104 | `det()` passes its assertions exactly when a·d − b·c is real and in Z[√2], and returns that element |
| SU2CliffordT.DetShaped | qualtran/rotation_synthesis/matrix/su2_ct.py:26-37 | the determinant of [[u, −v*], [v, u*]] is | u | ² + | v | ², so `det()` never fails on it (see also lines 98-104) |
| SU2CliffordT.DetRaw | qualtran/rotation_synthesis/matrix/su2_ct.py:57 | the determinant of the integral product is the product of the determinants (see also lines 98-100) |
| SU2CliffordT.DetMatMul | qualtran/rotation_synthesis/matrix/su2_ct.py:56-63 | det(g) · det(h) = 2 · det(g @ h) (see also lines 98-104) |
| SU2CliffordT.DetOfProduct | qualtran/rotation_synthesis/matrix/su2_ct.py:56-63 | for admissible factors all three determinants exist in Z[√2] and det(g) · det(h) = 2 · det(g @ h) (see also lines 98-104) |
| SU2CliffordT.ScaleDown | qualtran/rotation_synthesis/matrix/su2_ct.py:90-96 | `scale_down()` returns None exactly when some entry is not divisible by 2 + √2; otherwise the result times 2 + √2 is the matrix, with the gates kept |
| SU2CliffordT.ScaleDownTimes | qualtran/rotation_synthesis/matrix/su2_ct.py:52-54 | scaling by 2 + √2 and then scaling down gives the matrix back (see also lines 90-96) |
| SU2CliffordT.DetScaleDown | qualtran/rotation_synthesis/matrix/su2_ct.py:90-104 | scaling down divides the determinant by (2 + √2)² |
| SU2CliffordT.RawAdjoint | qualtran/rotation_synthesis/matrix/su2_ct.py:87-88 | g times g.adjoint() is ( | u | ² + | v | ²) times the identity |
| SU2CliffordT.AdjointProduct | qualtran/rotation_synthesis/matrix/su2_ct.py:56-88 | for det(g) = 2w, g @ g.adjoint() is ISqrt2 scaled by w |
| SU2Gates.SSqrt2Entries | qualtran/rotation_synthesis/matrix/su2_ct.py:249-253 | SSqrt2 = √2 · ω* · diag(1, i) has the entries of the S gate scaled to determinant 2 |
| SU2Gates.HSqrt2Entries | qualtran/rotation_synthesis/matrix/su2_ct.py:246-247 | HSqrt2 = i · [[1, 1], [1, −1]] |
| SU2Gates.TxEntries | qualtran/rotation_synthesis/matrix/su2_ct.py:265-272 | Tx = I·√2 + I − X·i, entry by entry |
| SU2Gates.TyEntries | qualtran/rotation_synthesis/matrix/su2_ct.py:265-273 | Ty = I·√2 + I − Y·i, entry by entry |
| SU2Gates.TzEntries | qualtran/rotation_synthesis/matrix/su2_ct.py:265-274 | Tz = I·√2 + I − Z·i, entry by entry |
| SU2Gates.AdmissibleShape | qualtran/rotation_synthesis/matrix/su2_ct.py:26-63 | a matrix [[u, −v*], [v, u*]] is admissible exactly when u ≡ v modulo √2 |
| SU2Gates.DetClosed | qualtran/rotation_synthesis/matrix/su2_ct.py:98-104 | the determinant of a shaped matrix, in coordinates |
| SU2Gates.IDet | qualtran/rotation_synthesis/matrix/su2_ct.py:255-258 | ISqrt2 has determinant 2 |
| SU2Gates.SDet | qualtran/rotation_synthesis/matrix/su2_ct.py:249-253 | SSqrt2 has determinant 2 |
| SU2Gates.HDet | qualtran/rotation_synthesis/matrix/su2_ct.py:246-247 | HSqrt2 has determinant 2 |
| SU2Gates.TxDet | qualtran/rotation_synthesis/matrix/su2_ct.py:271-272 | Tx has determinant 2(2 + √2) = 4 + 2√2 |
| SU2Gates.TyDet | qualtran/rotation_synthesis/matrix/su2_ct.py:271-273 | Ty has determinant 4 + 2√2 |
| SU2Gates.TzDet | qualtran/rotation_synthesis/matrix/su2_ct.py:271-274 | Tz has determinant 4 + 2√2 |
| SU2Gates.IAdmissible | qualtran/rotation_synthesis/matrix/su2_ct.py:255-258 | ISqrt2 is admissible |
| SU2Gates.SAdmissible | qualtran/rotation_synthesis/matrix/su2_ct.py:249-253 | SSqrt2 is admissible |
| SU2Gates.HAdmissible | qualtran/rotation_synthesis/matrix/su2_ct.py:246-247 | HSqrt2 is admissible |
| SU2Gates.TxAdmissible | qualtran/rotation_synthesis/matrix/su2_ct.py:271-272 | Tx is admissible |
| SU2Gates.TyAdmissible | qualtran/rotation_synthesis/matrix/su2_ct.py:271-273 | Ty is admissible |
| SU2Gates.TzAdmissible | qualtran/rotation_synthesis/matrix/su2_ct.py:271-274 | Tz is admissible |
| SU2Gates.NegateAdmissible | qualtran/rotation_synthesis/matrix/su2_ct.py:69-70 | `-g` of an admissible g is admissible with the same determinant |
| SU2Gates.AdjointAdmissible | qualtran/rotation_synthesis/matrix/su2_ct.py:87-88 | `g.adjoint()` of an admissible g is admissible with the same determinant |
| SU2Gates.DetProductPow | qualtran/rotation_synthesis/matrix/su2_ct.py:26-63 | multiplying matrices with determinants 2(2 + √2)^j and 2(2 + √2)^k gives one with determinant 2(2 + √2)^(j+k) |
| SU2Gates.DetProductTwo | qualtran/rotation_synthesis/matrix/su2_ct.py:56-63 | a product of two admissible matrices of determinant 2 is admissible with determinant 2 (see also lines 260-262) |
| SU2Gates.PauliZOfFacts | qualtran/rotation_synthesis/matrix/su2_ct.py:260 | ZSqrt2 = −SSqrt2 @ SSqrt2 is defined and admissible with determinant 2 |
| SU2Gates.PauliXOfFacts | qualtran/rotation_synthesis/matrix/su2_ct.py:261 | XSqrt2 = HSqrt2 @ ZSqrt2 @ HSqrt2.adjoint() is defined and admissible with determinant 2 |
| SU2Gates.PauliYOfFacts | qualtran/rotation_synthesis/matrix/su2_ct.py:262 | YSqrt2 = ZSqrt2 @ XSqrt2 is defined and admissible with determinant 2 |
| SU2Gates.GateMapWellFormed | qualtran/rotation_synthesis/matrix/su2_ct.py:246-287 | every entry of GATE_MAP is admissible, with determinant 2 for a Clifford and 2(2 + √2) for a T gate, and records its own name (the Paulis record none) |
| SU2Gates.LookupFacts | qualtran/rotation_synthesis/matrix/su2_ct.py:277-287 | a key is found exactly when it is one of the nine names, and its matrix is admissible with determinant 2(2 + √2)^t, t = 1 for a T gate and 0 otherwise |
| SU2Gates.SequenceProductDet | qualtran/rotation_synthesis/matrix/su2_ct.py:106-112 | `from_sequence` succeeds exactly on sequences of known names, and then gives an admissible matrix of determinant 2(2 + √2)^(number of T gates) |
| SU2Gates.SequenceProductGates | qualtran/rotation_synthesis/matrix/su2_ct.py:61-63 | `from_sequence` of known names succeeds, and the gates it records are the names other than "I" in circuit order, or none at all (None) once a Pauli occurs (see also lines 106-112) |
| SU2Gates.SequenceProductAdjoint | qualtran/rotation_synthesis/matrix/su2_ct.py:87-112 | u @ u.adjoint() of a sequence's matrix is ISqrt2 times (2 + √2)^(number of T gates), the unitarity of the scaled matrix (see also qualtran/rotation_synthesis/matrix/su2_ct_test.py:63-64) |
| SU2Gates.UnknownPersists | qualtran/rotation_synthesis/matrix/su2_ct.py:106-112 | once a name is not found the whole sequence fails |
| SU2Gates.FromSequence | qualtran/rotation_synthesis/matrix/su2_ct.py:106-112 | the loop `u = GATE_MAP[g] @ u` from ISqrt2 computes the sequence product |
| SU2Validity.QuotientNorm | qualtran/rotation_synthesis/matrix/su2_ct.py:200-201 | dividing by 2 + √2 halves the norm, so the loop of `is_valid` ends |
| SU2Validity.IsValid | qualtran/rotation_synthesis/matrix/su2_ct.py:196-207 | the loop of `is_valid` computes IsValidSpec: divide det by 2 + √2 while it is above 2 and divisible, then compare with 2 and the first column's need for ω |
| SU2Validity.DetAfterAboveTwo | qualtran/rotation_synthesis/matrix/su2_ct.py:200 | after at least one T gate the determinant is above 2 and divisible by 2 + √2 |
| SU2Validity.ReduceDetAfter | qualtran/rotation_synthesis/matrix/su2_ct.py:200-203 | the loop brings 2(2 + √2)^k down to 2 |
| SU2Validity.ReduceToTwo | qualtran/rotation_synthesis/matrix/su2_ct.py:200-203 | only the determinants 2(2 + √2)^k come down to 2 |
| SU2Validity.ReduceIff | qualtran/rotation_synthesis/matrix/su2_ct.py:200-203 | the loop ends at 2 exactly on the determinants 2(2 + √2)^k |
| SU2Validity.ValidIff | qualtran/rotation_synthesis/matrix/su2_ct.py:98-104 | `is_valid` raises exactly when `det()` does, and is true exactly when det = 2(2 + √2)^k for some k and the first column's entries agree on needing ω (see also lines 196-207) |
| SU2Validity.AdmissibleNeedsW | qualtran/rotation_synthesis/matrix/su2_ct.py:205-207 | the first-column entries of an admissible matrix agree on needing ω |
| SU2Validity.ValidFromDet | qualtran/rotation_synthesis/matrix/su2_ct.py:196-207 | an admissible matrix of determinant 2(2 + √2)^k is valid |
| SU2Validity.SequenceProductValid | qualtran/rotation_synthesis/matrix/su2_ct.py:106-112 | every product `from_sequence` builds is valid (see also lines 196-207) |
| SU2Parametric.FromParametricForm | qualtran/rotation_synthesis/matrix/su2_ct.py:127-134 | the loop adds the four terms coefficient · basis matrix and returns their sum, recording no gates (see also lines 289-294) |
| SU2Parametric.ComposeStep | qualtran/rotation_synthesis/matrix/su2_ct.py:132-133 | one pass of the loop adds the next coefficient times its basis matrix |
| SU2Parametric.ComposeAdmissible | qualtran/rotation_synthesis/matrix/su2_ct.py:127-134 | every matrix `from_parametric_form` builds is admissible (see also lines 289-294) |
| SU2Parametric.ParametricFormDefined | qualtran/rotation_synthesis/matrix/su2_ct.py:114-125 | `parametric_form` passes its exact halvings exactly when the first column's entries are congruent modulo √2 |
| SU2Parametric.ParametricFormValue | qualtran/rotation_synthesis/matrix/su2_ct.py:114-125 | where it succeeds it returns the coefficients solved from the first column |
| SU2Parametric.SolveColumn | qualtran/rotation_synthesis/matrix/su2_ct.py:114-134 | the solved coefficients compose back to the column they were solved from |
| SU2Parametric.SolveCompose | qualtran/rotation_synthesis/matrix/su2_ct.py:114-134 | solving the first column of a composed matrix gives back its coefficients |
| SU2Parametric.ParametricFormOfCompose | qualtran/rotation_synthesis/matrix/su2_ct.py:114-134 | parametric_form(from_parametric_form(pf)) == pf for every pf |
| SU2Parametric.ParametricFormRoundTrip | qualtran/rotation_synthesis/matrix/su2_ct.py:114-134 | on matrices [[u, −v*], [v, u*]], parametric_form succeeds exactly on the admissible ones, and from_parametric_form rebuilds the matrix (see also qualtran/rotation_synthesis/matrix/su2_ct_test.py:42-46) |
| SU2Parametric.SequenceProductParametric | qualtran/rotation_synthesis/matrix/su2_ct_test.py:42-46 | every product of a gate sequence survives the round trip through its coefficients |
| SU2Cliffords.NegMInvolution | qualtran/rotation_synthesis/matrix/su2_ct.py:69-70 | negating a matrix twice gives it back, so "apart up to sign" is symmetric |
| SU2Cliffords.Search | qualtran/rotation_synthesis/matrix/su2_ct.py:298-310 | the DFS with a stack and a `seen` set: when no assertion fails, at most the bound of entries, among them the start, all reached by the search, pairwise apart up to sign, and every entry times every generator is seen up to sign |
| SU2Cliffords.PopStep | qualtran/rotation_synthesis/matrix/su2_ct.py:302-304 | popping the stack onto the result keeps `seen` the set of both lists and the entries apart up to sign |
| SU2Cliffords.PushStep | qualtran/rotation_synthesis/matrix/su2_ct.py:306-309 | pushing a product apart from everything seen keeps those invariants |
| SU2Cliffords.CoveredGrows | qualtran/rotation_synthesis/matrix/su2_ct.py:306-309 | what was covered stays covered once `seen` grows, and the product handled is covered |
| SU2Cliffords.CoveredLast | qualtran/rotation_synthesis/matrix/su2_ct.py:306-309 | once both generators are handled for the last entry, every entry is covered |
| SU2Cliffords.DistinctCard | qualtran/rotation_synthesis/matrix/su2_ct.py:311-312 | entries apart up to sign give as many dictionary keys as entries |
| SU2Cliffords.DictEntry | qualtran/rotation_synthesis/matrix/su2_ct.py:312 | every key of `{v: v.gates for v in ret}` is the matrix of an entry, mapped to its gates |
| SU2Cliffords.DictKeys | qualtran/rotation_synthesis/matrix/su2_ct.py:311-312 | the keys are the entries' matrices, one key per entry |
| SU2Cliffords.DictApart | qualtran/rotation_synthesis/matrix/su2_ct.py:306-312 | no key is the negative of another |
| SU2Cliffords.DictCovered | qualtran/rotation_synthesis/matrix/su2_ct.py:306-312 | every key times S or H is a key up to sign |
| SU2Cliffords.GenerateCliffords | qualtran/rotation_synthesis/matrix/su2_ct.py:297-312 | when both assertions pass: exactly 24 keys, the identity among them, each a Clifford reached by S and H, pairwise apart up to sign, and closed up to sign under multiplication by S and H |
| SU2Cliffords.WordOfProduct | qualtran/rotation_synthesis/matrix/su2_ct.py:61-63 | the gates of c @ p, p recording one S or H, are again a word in S and H (see also lines 306-307) |
| SU2Cliffords.ProductMatrix | qualtran/rotation_synthesis/matrix/su2_ct.py:56-63 | the product of two admissible matrices of determinant 2 is defined and again one (see also lines 306-307) |
| SU2Cliffords.ExtendFound | qualtran/rotation_synthesis/matrix/su2_ct.py:306-309 | multiplying a Clifford of the search by S or H gives one |
| SU2Cliffords.GeneratorsClosed | qualtran/rotation_synthesis/matrix/su2_ct.py:306-309 | the Cliffords of the search are closed under multiplication by the scaled S and H |
| SU2Cliffords.StartFound | qualtran/rotation_synthesis/matrix/su2_ct.py:300 | the scaled identity, recording no gates, is a Clifford of the search |
| SU2Cliffords.GateMapSearch | qualtran/rotation_synthesis/matrix/su2_ct.py:277-309 | GATE_MAP's I, S and H meet the preconditions of the search |
| PointCollectors.Channels | qualtran/rotation_synthesis/protocols/protocol.py:88-89 | one unitary channel per point, in the order the points came |
| PointCollectors.SimpleStatusInjective | qualtran/rotation_synthesis/protocols/protocol.py:91-92 | the status string `have=… need=…` determines both counts |
| PointCollectors.SimplePointCollector.constructor | qualtran/rotation_synthesis/protocols/protocol.py:77-80 | a new collector holds no points and the given target count |
| PointCollectors.SimplePointCollector.AddPoint | qualtran/rotation_synthesis/protocols/protocol.py:82-83 | appends the point, changes nothing else, and a collector that was done stays done |
| PointCollectors.SimplePointCollector.Result | qualtran/rotation_synthesis/protocols/protocol.py:88-89 | one channel per collected point, in order |
| PointCollectors.Route | qualtran/rotation_synthesis/protocols/protocol.py:117-127 | a point with positive side goes left, negative side right, and on the line left exactly when the left list is the shorter |
| PointCollectors.TieKeepsBalance | qualtran/rotation_synthesis/protocols/protocol.py:117-127 | points on the line keep the two sides within one of each other, going right when they are even |
| PointCollectors.SplitStatusSpec | qualtran/rotation_synthesis/protocols/protocol.py:129-148 | "ready" exactly when `is_done`, and "empty", "waiting left" and "waiting right" exactly when neither, only the left or only the right list is short of the target |
| PointCollectors.SplitRegionCollector.constructor | qualtran/rotation_synthesis/protocols/protocol.py:104-109 | a new collector has two empty lists and the given target count |
| PointCollectors.SplitRegionCollector.AddPoint | qualtran/rotation_synthesis/protocols/protocol.py:117-127 | appends the point to the list Route picks, leaves the other unchanged, and a done collector stays done |
| PointCollectors.SplitRegionCollector.Result | qualtran/rotation_synthesis/protocols/protocol.py:132-137 | the channels of the left points and those of the right points, in order |
| ControlledBloqs.MakeCtrlSpec | qualtran/_infra/controlled.py:128-129 | construction succeeds exactly when there is one register type per control-value array, and then keeps both; otherwise the assertion error |
| ControlledBloqs.NumBitsAdditive | qualtran/_infra/controlled.py:148-151 | num_bits of two specs placed side by side is the sum of their num_bits |
| ControlledBloqs.NumBitsLast | qualtran/_infra/controlled.py:148-151 | the last register adds its width times the number of entries of its shape |
| ControlledBloqs.NumBitsDefined | qualtran/_infra/controlled.py:148-166 | num_bits is a number exactly when every register type has a concrete width, and None (symbolic) exactly when some register type's width is symbolic |
| ControlledBloqs.DefaultSpecBits | qualtran/_infra/controlled.py:79-127 | the default spec (one QBit, control value 1) is concrete and controls on one bit (see also lines 148-151) |
| ControlledBloqs.IsActive | qualtran/_infra/controlled.py:180-210 | ValueError for a symbolic spec and for a wrong number of values; otherwise true exactly when every value equals its control values, a shape error exactly at the first register whose value has the wrong shape with all earlier ones matching, and false exactly at the first mismatching register of the right shape |
| ControlledBloqs.FirstMismatch | qualtran/_infra/controlled.py:201-209 | the first register whose value differs is unique, and the loop stops there |
| ControlledBloqs.Shapes | qualtran/_infra/controlled.py:135-138 | one shape per control-value array, in order |
| ControlledBloqs.CvsTuple | qualtran/_infra/controlled.py:229-237 | one flattened serial per control-value array (the Shaped object itself when symbolic) |
| ControlledBloqs.EqualIsIdentity | qualtran/_infra/controlled.py:239-250 | two specs are equal exactly when their register types, shapes and flattened values agree, which is exactly when they are the same spec; equal specs hash equal |
| ControlledBloqs.CtrlNameInjective | qualtran/_infra/controlled.py:355-357 | 'ctrl<i>' names differ for different i and never equal 'ctrl' |
| ControlledBloqs.MaxLen | qualtran/_infra/controlled.py:343-363 | no existing name is longer than the bound |
| ControlledBloqs.LongNameFree | qualtran/_infra/controlled.py:355-360 | a name 'ctrl<i>' longer than every existing name is free, so the inner loop ends |
| ControlledBloqs.NiceCtrlRegNames | qualtran/_infra/controlled.py:343-363 | n pairwise distinct names, none among the existing names; ('ctrl',) exactly when one is wanted and 'ctrl' is free; otherwise the first free 'ctrl<i>' counting up from 1 (from 2 when 'ctrl' is taken) |
| ControlledBloqs.ChooseNames | qualtran/_infra/controlled.py:353-362 | the outer loop picks n names, each the first free 'ctrl<i>' after the previous one |
| ControlledBloqs.NextFree | qualtran/_infra/controlled.py:355-360 | the inner loop returns the first i above the last with 'ctrl<i>' free |
| ControlledBloqs.DistinctNames | qualtran/_infra/controlled.py:353-362 | increasing indices give pairwise distinct names |
| ControlledBloqs.GreedyStep | qualtran/_infra/controlled.py:353-362 | taking the next free index keeps the choice greedy: every skipped name is taken |
| ControlledBloqs.ControlledCallGraph | qualtran/_infra/controlled.py:654-671 | every controlled callee is a key, every key comes from some callee, and its count is the total of the counts of the callees that become it |
| ControlledBloqs.CountStep | qualtran/_infra/controlled.py:666-670 | one pass adds the pair's count to the key it maps to and nothing elsewhere |
| ControlledBloqs.CountInjective | qualtran/_infra/controlled.py:666-670 | when controlling is injective on the callees, each count is the callee's own |
| ControlledBloqs.CtrlVals | qualtran/_infra/controlled.py:443 | the control values in the order of the control register names |
| ControlledBloqs.OtherVals | qualtran/_infra/controlled.py:444 | exactly the subbloq's registers present in vals, with their values |
| ControlledBloqs.OnClassicalVals | qualtran/_infra/controlled.py:382-386 | ValueError unless all registers are THRU; a missing value exactly when some control or subbloq register is absent; with every value present and a concrete spec, the ValueError of is_active for a wrong number of control values, otherwise success exactly when no control value has the wrong shape (the only remaining error); on success, when active, the subbloq's result with the control values written back, otherwise the input unchanged (see also lines 435-454) |
| ControlledBloqs.ControlValuesKept | qualtran/_infra/controlled.py:446-451 | a control register of the result holds its input value |
| ControlledBloqs.SubbloqValuesKept | qualtran/_infra/controlled.py:446-451 | a register that is not a control register holds the subbloq's result |
| ModDivision.Step1Spec | qualtran/bloqs/mod_arithmetic/mod_division.py:68-71 | step 1 changes only m and f, is undone by its inverse in both orders, and on m = 0 clears f exactly when f or v is 0 |
| ModDivision.Step2Spec | qualtran/bloqs/mod_arithmetic/mod_division.py:116-123 | step 2 changes only a, m and b, is undone by its inverse, and on a live state sets a for even u, else m for even v, with b their sum |
| ModDivision.Step3Spec | qualtran/bloqs/mod_arithmetic/mod_division.py:173-179 | step 3 flips a and m together, exactly when u > v with b clear and f set, and is its own inverse |
| ModDivision.Step4Spec | qualtran/bloqs/mod_arithmetic/mod_division.py:226-232 | step 4 swaps u with v and r with s exactly when a is set, and is its own inverse |
| ModDivision.Step5Spec | qualtran/bloqs/mod_arithmetic/mod_division.py:264-270 | step 5 changes only v and s, subtracting u and adding r exactly when f is set and b clear, and is undone by its inverse |
| ModDivision.Step6Spec | qualtran/bloqs/mod_arithmetic/mod_division.py:311-325 | step 6 doubles r modulo p as ModDbl does, moved to s when a is set, leaves m and f alone, and is undone by its inverse on the states it is meant for (see also qualtran/bloqs/mod_arithmetic/mod_multiplication.py:78-81) |
| ModDivision.CallGraphShapes | qualtran/bloqs/mod_arithmetic/mod_division.py:243-246 | step 6 has n − 1 two-bit swaps and one ModDbl, steps 4 and 6 each have two approximate swaps, and the inverse runs 2n iterations (see also lines 360-366, 467-473) |
| ModDivision.IterationLive | qualtran/bloqs/mod_arithmetic/mod_division.py:370-412 | an iteration on a live state with v ≠ 0 is one step of Kaliski's almost-inverse, with the doubled coefficient reduced modulo p, and clears b |
| ModDivision.IterationFinished | qualtran/bloqs/mod_arithmetic/mod_division.py:370-412 | once v is 0 or f is clear an iteration only doubles r modulo p, and it clears f |
| ModDivision.IterationKeeps | qualtran/bloqs/mod_arithmetic/mod_division.py:370-412 | an iteration keeps the invariant p = u·s + v·r, r·x ≡ −u·2^j and s·x ≡ v·2^j (mod p), gcd(u, v) = 1 with the bounds, and clears a and b |
| ModDivision.OddNotDividesPow2 | qualtran/bloqs/mod_arithmetic/mod_division.py:438-464 | no odd p above 1 divides a power of two, so the Montgomery factor 2^(2n) the inverse carries is invertible modulo p |
| ModDivision.BoundForcesZero | qualtran/bloqs/mod_arithmetic/mod_division.py:451-452 | after 2n iterations the bound u·v·2^(2n) ≤ p·x < 2^(2n) leaves v = 0 |
| ModDivision.FinalState | qualtran/bloqs/mod_arithmetic/mod_division.py:451-452 | after 2n iterations v = 0, u = 1, s = p and 0 < r < p with x·r + 2^(2n) ≡ 0 (mod p) (see also qualtran/bloqs/mod_arithmetic/mod_division_test.py:41-44) |
| ModDivision.NegateResidue | qualtran/bloqs/mod_arithmetic/mod_division.py:453-454 | the complement and the addition of p + 1 modulo 2^n turn r into p − r |
| ModDivision.InitialInv | qualtran/bloqs/mod_arithmetic/mod_division.py:438-451 | the starting registers u = p, v = x, r = 0, s = 1, f = 1 satisfy the invariant (see also lines 496-518) |
| ModDivision.FinalResult | qualtran/bloqs/mod_arithmetic/mod_division.py:438-464 | the registers returned from an invariant state after 2n iterations are u = 1, v = 0, s = p and the r with r·x ≡ 2^(2n) (mod p) |
| ModDivision.KaliskiModInverse | qualtran/bloqs/mod_arithmetic/mod_division.py:438-464 | records one m bit per iteration, 2n in all; on u = p odd, v = x coprime to p, r = 0 and s = 1 it returns u = 1, v = 0, s = p and 0 < r < p with r·x ≡ 2^(2n) (mod p), the Montgomery form of x's inverse when x is the Montgomery form of x (see also lines 496-529; qualtran/bloqs/mod_arithmetic/mod_division_test.py:29-45) |
| ModMultiplication.MakeModDbl | qualtran/bloqs/mod_arithmetic/mod_multiplication.py:66-72 | a concrete modulus is accepted exactly when Python's `mod % 2 == 1` holds |
| ModMultiplication.DoubleResidue | qualtran/bloqs/mod_arithmetic/mod_multiplication.py:78-81 | doubling a residue gives 2x, or 2x − p once that reaches p |
| ModMultiplication.ModDblSpec | qualtran/bloqs/mod_arithmetic/mod_multiplication.py:78-81 | values from p up are unchanged; a residue goes to a residue 2x or 2x − p, and doubling is undone by halving modulo p in both orders |
| ModMultiplication.ModDblInjective | qualtran/bloqs/mod_arithmetic/mod_multiplication.py:78-81 | doubling modulo an odd p sends distinct residues to distinct residues |
| ModMultiplication.ModDblCallGraph | qualtran/bloqs/mod_arithmetic/mod_multiplication.py:136-144 | four callees: two constant additions whose constants cancel (−p and p), each once, and three single-qubit gates |
| ModMultiplication.MakeCModMulK | qualtran/bloqs/mod_arithmetic/mod_multiplication.py:182-188 | a concrete constant is accepted exactly when 0 < k < mod |
| ModMultiplication.CModMulKSpec | qualtran/bloqs/mod_arithmetic/mod_multiplication.py:228-231 | ctrl is kept; x is unchanged unless ctrl is set and x < mod, and then it becomes x·k mod p |
| ModMultiplication.TimesInverse | qualtran/bloqs/mod_arithmetic/mod_multiplication.py:198-213 | multiplying a residue by k and then by an inverse of k gives it back |
| ModMultiplication.CModMulKInverse | qualtran/bloqs/mod_arithmetic/mod_multiplication.py:198-231 | CModMulK by k followed by CModMulK by an inverse of k is the identity on residues |
| ModMultiplication.CModMulKCallees | qualtran/bloqs/mod_arithmetic/mod_multiplication.py:224-226 | two scaled modular additions with a fresh symbol k and one controlled swap |
| SwapBloqs.OnClassicalVals | qualtran/bloqs/basic_gates/swap.py:99-102 | the uncontrolled swaps exchange x and y; the controlled ones do so when ctrl is 1, change nothing when it is 0, and raise ValueError for any other control value (see also lines 183-190, 245-248, 324-331) |
| SwapBloqs.AdjointUndoes | qualtran/bloqs/basic_gates/swap.py:104-105 | every swap bloq is its own adjoint, and applying it twice restores every value it accepts (see also lines 198-199, 259-260) |
| SwapBloqs.CallGraphCosts | qualtran/bloqs/basic_gates/swap.py:86-87 | TwoBitCSwap's declared T complexity (7 T, 10 Cliffords) is what its callees add up to; Swap(n) costs n Cliffords and CSwap(n) 7n T gates and 10n Cliffords (see also lines 192-196, 242-243, 321-322) |
| SwapBloqs.BitwiseCSwapSpec | qualtran/bloqs/basic_gates/swap.py:307-319 | the bit-by-bit decomposition fails exactly on a bad control with non-empty registers, and otherwise keeps or exchanges the registers as a whole |
| SwapBloqs.BitwiseCSwapAgrees | qualtran/bloqs/basic_gates/swap.py:307-331 | the decomposition has the classical action of CSwap(n) on the registers' values |
| ArithmeticGates.XorBitSpec | cirq_qubitization/cirq_algos/arithmetic_gates.py:24-25 | the target changes exactly when the condition holds, and xoring twice restores it |
| ArithmeticGates.RegistersRoundTrip | cirq_qubitization/cirq_algos/arithmetic_gates.py:18-22 | with_registers(*registers()) gives the gate back, and registers() of a rebuilt gate gives the registers with the target [2] |
| ArithmeticGates.ApplySpec | cirq_qubitization/cirq_algos/arithmetic_gates.py:24-25 | apply keeps x and a, flips the target exactly when x < a, and undoes itself |
| ArithmeticGates.LessThanCliffordsPerOneBit | cirq_qubitization/cirq_algos/arithmetic_gates.py:96-100 | for a constant below 2^n the T complexity is 4n T gates and 15n + 2 Cliffords plus 3 per one bit among the bits the decomposition scans |
| ArithmeticGates.CompareSnoc | cirq_qubitization/cirq_algos/arithmetic_gates.py:62-89 | one more bit, most significant first: a prefix already smaller stays smaller, and equal prefixes are decided by the new bits |
| ArithmeticGates.LessThanDecomposition | cirq_qubitization/cirq_algos/arithmetic_gates.py:30-91 | the decomposition run on classical bits is defined exactly when the constant is not negative (iter_bits refuses it), and then flips the target exactly as apply does |
| ArithmeticGates.ScanStep | cirq_qubitization/cirq_algos/arithmetic_gates.py:65-89 | one step of the scan: the ancilla, the target update and the new are_equal |
| ArithmeticGates.Scan | cirq_qubitization/cirq_algos/arithmetic_gates.py:59-91 | the scan over the bits of x and of the constant xors (x < val) into the target |
| ArithmeticGates.EqualRegistersRoundTrip | cirq_qubitization/cirq_algos/arithmetic_gates.py:113-117 | with_registers(*registers()) gives LessThanEqualGate back |
| ArithmeticGates.ApplyLessEqualSpec | cirq_qubitization/cirq_algos/arithmetic_gates.py:119-126 | apply keeps x and y, flips the target exactly when x ≤ y, undoes itself, and flips exactly when LessThanGate's apply of (y, x) does not |
| BitTools.Pow2 | cirq_qubitization/bit_tools.py:35-36 | 2^w is at least 1 |
| BitTools.BitLengthFits | cirq_qubitization/bit_tools.py:16-17 | a value has at most w bits exactly when it is below 2^w |
| BitTools.BinDigits | cirq_qubitization/bit_tools.py:20 | Python's binary digits of v, with no leading zero ("0" for zero) |
| BitTools.BinDigitsRoundTrip | cirq_qubitization/bit_tools.py:20 | the digits read back give v, and there are as many as v has bits (one for 0) |
| BitTools.BinValueZeros | cirq_qubitization/bit_tools.py:20 | leading zeros do not change the value |
| BitTools.FormatBin | cirq_qubitization/bit_tools.py:20-37 | `f'{n:0{width}b}'`: defined for a width of at least 0; for n ≥ 0 the digits padded to the width; for n < 0 a minus sign before the digits |
| BitTools.FormatBinValue | cirq_qubitization/bit_tools.py:20 | the formatted digits of a non-negative n read back give n |
| BitTools.ToBits | cirq_qubitization/bit_tools.py:20-21 | `int(b)` per character, one bit per digit |
| BitTools.ToBitsValue | cirq_qubitization/bit_tools.py:20-21 | the bits have the value of the digits |
| BitTools.FixedBits | cirq_qubitization/bit_tools.py:20-38 | the big-endian form of the low width bits of v, width bits long |
| BitTools.FixedBitsValue | cirq_qubitization/bit_tools.py:20-38 | the width-bit form of v has value v mod 2^width |
| BitTools.ValueBound | cirq_qubitization/bit_tools.py:20-21 | a sequence of w bits has a value below 2^w |
| BitTools.ValueInjective | cirq_qubitization/bit_tools.py:20-21 | bit sequences of one length with one value are equal |
| BitTools.IterBitsAsWrittenSpec | cirq_qubitization/bit_tools.py:5-21 | as written: succeeds exactly for 0 ≤ val < 2^width, yielding `max(width, 1)` bits (f-string padding) that read back as val |
| BitTools.IterBitsAsWrittenWidthZero | cirq_qubitization/bit_tools.py:16-21 | the input that shows it: iter_bits(0, 0) yields one bit, not zero |
| BitTools.IterBitsSpec | cirq_qubitization/bit_tools.py:5-21 | the intended iter_bits: succeeds exactly for 0 ≤ val < 2^width, with "exceeds width" before "negative", yielding exactly width bits that read back as val |
| BitTools.IterBitsAgree | cirq_qubitization/bit_tools.py:5-21 | for every width of at least one bit the as-written and intended functions agree |
| BitTools.IterBitsTwosAsWrittenSpec | cirq_qubitization/bit_tools.py:24-39 | as written: the result is the big-endian form of the low width bits of val, for every value the check lets through |
| BitTools.IterBitsTwosAsWrittenTruncates | cirq_qubitization/bit_tools.py:35-39 | the input that shows it: iter_bits_twos_complement(100, 4) yields [0, 1, 0, 0] although 100 needs 7 bits |
| BitTools.IterBitsTwosSpec | cirq_qubitization/bit_tools.py:24-39 | the intended one: succeeds exactly for −2^(width−1) ≤ val < 2^width, and then the bits read back as val, or val + 2^width with the top bit set for a negative val |
| BitTools.TwosAgreesWithPlain | cirq_qubitization/bit_tools.py:5-39 | for a non-negative val that fits, both two's-complement functions agree with iter_bits |
| BitTools.TwosExamples | cirq_qubitization/bit_tools.py:24-39 | −2 and −3 in four bits are 1110 and 1101 |
| BitTools.FormatBinBits | cirq_qubitization/bit_tools.py:20-38 | for a value of at most w ≥ 1 bits, the formatted digits are its w-bit form |
| BitTools.FixedBitsField | cirq_qubitization/bit_tools.py:20-21 | bits i to j of the w-bit form of v are (v / 2^(w−j)) mod 2^(j−i), in j − i bits |
| GateRegisters.NamesCount | cirq_qubitization/gate_with_registers.py:19-23 | there are at most as many names as registers, and exactly as many when the names are distinct |
| GateRegisters.NameDictKeys | cirq_qubitization/gate_with_registers.py:21 | the name dictionary has one key per register name |
| GateRegisters.MakeRegisters | cirq_qubitization/gate_with_registers.py:18-23 | `Registers(registers)` succeeds exactly when the names are distinct (else ValueError) and keeps the registers in order |
| GateRegisters.OffsetMonotone | cirq_qubitization/gate_with_registers.py:25-27 | the running offsets never decrease (see also lines 64-70) |
| GateRegisters.FieldInRange | cirq_qubitization/gate_with_registers.py:25-27 | each register's field lies within the total bitsize (see also lines 64-70) |
| GateRegisters.SliceInRange | cirq_qubitization/gate_with_registers.py:68 | a Python slice s[i:j] is s[i..j] when j is in range and never longer than j − i |
| GateRegisters.SplitStep | cirq_qubitization/gate_with_registers.py:67-69 | one pass of the loop adds the next register's slice at its offset |
| GateRegisters.SplitQubits | cirq_qubitization/gate_with_registers.py:64-70 | every register's name maps to the slice of the qubits at its offset and width |
| GateRegisters.MergeSpec | cirq_qubitization/gate_with_registers.py:89-97 | merge_qubits succeeds exactly when every register is supplied with a qubit or exactly bitsize qubits, and then concatenates them in register order |
| GateRegisters.MergeStops | cirq_qubitization/gate_with_registers.py:91-95 | the first register that fails decides the error |
| GateRegisters.MergeQubits | cirq_qubitization/gate_with_registers.py:89-97 | the loop computes the merge |
| GateRegisters.MergeOfSplit | cirq_qubitization/gate_with_registers.py:64-97 | merge_qubits(**split_qubits(q)) == q for a list of exactly bitsize qubits |
| GateRegisters.SplitOfMerge | cirq_qubitization/gate_with_registers.py:64-97 | split_qubits(merge_qubits(**regs)) gives every register back its own qubits |
| GateRegisters.ParseBin | cirq_qubitization/gate_with_registers.py:85 | `int(s, 2)` on binary digits succeeds exactly on a non-empty string |
| GateRegisters.ValuesStep | cirq_qubitization/gate_with_registers.py:84-86 | one pass of the loop records the next register's field as an integer |
| GateRegisters.SplitInteger | cirq_qubitization/gate_with_registers.py:72-87 | succeeds exactly when every field parses, then maps every register to the integer its field of `f"{n:0{bitsize}b}"` reads; otherwise fails at a field that does not parse |
| GateRegisters.FieldValue | cirq_qubitization/gate_with_registers.py:72-87 | for 0 ≤ n < 2^bitsize a field parses exactly when its register is at least one bit wide, and reads (n / 2^(bitsize − offset − width)) mod 2^width |
| GateRegisters.SplitIntegerSucceeds | cirq_qubitization/gate_with_registers.py:72-87 | for 0 ≤ n < 2^bitsize split_integer succeeds exactly when no register has width 0 |
| QubitManager.Fresh | cirq_qubitization/qubit_manager.py:33 | the new qubits are named prefix_lo … prefix_(hi − 1), in index order |
| QubitManager.AccountedCount | cirq_qubitization/qubit_manager.py:21-48 | a manager's used and free qubits together number its size |
| QubitManager.ManagedCount | cirq_qubitization/qubit_manager.py:33 | a pool of size n holds n distinct named qubits |
| QubitManager.DistinctCount | cirq_qubitization/qubit_manager.py:46-48 | a list that repeats no qubit has as many elements as its set |
| QubitManager.PyIndex | cirq_qubitization/qubit_manager.py:39-40 | a Python slice bound, counted from the end when negative and clamped to the list |
| QubitManager.TakeAsWrittenZero | cirq_qubitization/qubit_manager.py:39-40 | as written, a request for 0 qubits without parallelizing returns the whole free list |
| QubitManager.SplitAt | cirq_qubitization/qubit_manager.py:39-40 | a cut of a list that repeats no qubit gives two disjoint such lists holding all its qubits |
| QubitManager.TakeSpec | cirq_qubitization/qubit_manager.py:39-40 | the intended split returns exactly n qubits when there are enough, and returned and remaining qubits partition the free list, front first when parallelizing and back first otherwise |
| QubitManager.TakeAsWrittenSpec | cirq_qubitization/qubit_manager.py:39-40 | the split as written: the same, except that 0 qubits from the back returns the whole free list |
| QubitManager.TakeAgrees | cirq_qubitization/qubit_manager.py:39-40 | the two splits are equal except for a request of 0 qubits from the back |
| QubitManager.GreedyQubitManager.constructor | cirq_qubitization/qubit_manager.py:22-28 | a new manager has no used qubits and, for a positive size, the qubits prefix_0 … prefix_(size − 1) free |
| QubitManager.GreedyQubitManager.Resize | cirq_qubitization/qubit_manager.py:30-35 | a larger size puts the new qubits, in index order, in front of the free list; a size that is not larger changes nothing |
| QubitManager.GreedyQubitManager.QAlloc | cirq_qubitization/qubit_manager.py:37-42 | grows the pool to have n free qubits, returns the as-written split, marks the returned qubits used, keeps the account, and returns n distinct previously unused qubits except for qalloc(0) without parallelizing |
| QubitManager.GreedyQubitManager.QFree | cirq_qubitization/qubit_manager.py:44-48 | fails without change unless every qubit is in use; otherwise they leave the used set and join the end of the free list, each once, and the account is kept |
| QubitManager.ResizeKeeps | cirq_qubitization/qubit_manager.py:30-35 | growing the pool keeps used and free qubits a partition of the managed qubits |
| QubitManager.TakeKeeps | cirq_qubitization/qubit_manager.py:37-42 | allocating keeps the account and hands out distinct qubits that were free |
| QubitManager.FreeKeeps | cirq_qubitization/qubit_manager.py:44-48 | freeing qubits in use keeps the account |
| QubitManager.Enumerate | cirq_qubitization/qubit_manager.py:45-48 | lists a set's qubits, each once, in an unspecified order |
| QubitManager.DistinctAppend | cirq_qubitization/qubit_manager.py:48 | appending a new qubit keeps a list free of repeats and adds it to the set |
| CompositeBloqs.Lefts | cirq_qubitization/quantum_graph/composite_bloq.py:127 | the left registers are exactly the non-RIGHT ones (THRU counts both ways) (see also lines 215, 259) |
| CompositeBloqs.Rights | cirq_qubitization/quantum_graph/composite_bloq.py:137 | the right registers are exactly the non-LEFT ones (see also lines 289, 335) |
| CompositeBloqs.NdindexSpec | cirq_qubitization/quantum_graph/composite_bloq.py:128 | `wire_idxs()` lists an index tuple exactly when it lies inside the wire shape (see also lines 218, 271, 292, 345) |
| CompositeBloqs.RangesSpec | cirq_qubitization/quantum_graph/composite_bloq.py:128 | the indices with first entry below n are those whose tail lies in the tail shape (see also lines 218) |
| CompositeBloqs.WireSoqs | cirq_qubitization/quantum_graph/composite_bloq.py:216-222 | one soquet of an instance per wire index of a register, in wire-index order (see also lines 292-295) |
| CompositeBloqs.AllWires | cirq_qubitization/quantum_graph/composite_bloq.py:289-300 | all the wires of the given registers, register after register, all on the given instance |
| CompositeBloqs.Feed | cirq_qubitization/quantum_graph/composite_bloq.py:259-281 | the supplied soquets, register after register, one per wire |
| CompositeBloqs.Zip | cirq_qubitization/quantum_graph/composite_bloq.py:280-281 | one Connection(supplied soquet, target wire) per wire (see also lines 354) |
| CompositeBloqs.FilterSpec | cirq_qubitization/quantum_graph/composite_bloq.py:88-93 | an edge's list holds exactly the connections between that pair of instances |
| CompositeBloqs.BinstGraph | cirq_qubitization/quantum_graph/composite_bloq.py:78-94 | every connection's pair of instances is an edge, and every edge carries, in order, exactly its own connections and at least one |
| CompositeBloqs.BinstGraphKeepsAll | cirq_qubitization/quantum_graph/composite_bloq.py:78-94 | no connection is lost: each is on its own edge and on no other |
| CompositeBloqs.CompositeBloqBuilder.constructor | cirq_qubitization/quantum_graph/composite_bloq.py:203-232 | a new builder has no connection and makes available one left-boundary soquet per wire of every left register; initial_soquets maps each left register's name to its soquets |
| CompositeBloqs.CompositeBloqBuilder.ConsumeWires | cirq_qubitization/quantum_graph/composite_bloq.py:271-281 | each supplied soquet in turn leaves the available set and is connected to its wire until one is not available (see also lines 345-354) |
| CompositeBloqs.CompositeBloqBuilder.ConsumeRegs | cirq_qubitization/quantum_graph/composite_bloq.py:259-281 | succeeds exactly when every register's name is supplied with one soquet per wire and those soquets are available and distinct, and then connects them in order and returns the unrequested names (see also lines 335-354) |
| CompositeBloqs.CompositeBloqBuilder.Consume | cirq_qubitization/quantum_graph/composite_bloq.py:259-286 | the same, and refuses exactly the otherwise-acceptable inputs that name a register the bloq does not have (see also lines 335-359) |
| CompositeBloqs.CompositeBloqBuilder.Publish | cirq_qubitization/quantum_graph/composite_bloq.py:288-301 | every wire of every right register of the new instance becomes an available soquet, listed per register |
| CompositeBloqs.CompositeBloqBuilder.AdvancedAdd | cirq_qubitization/quantum_graph/composite_bloq.py:249-303 | a new numbered instance succeeds exactly when the inputs are accepted; then it connects each supplied soquet to its left wire, consumes them, and makes its right wires available, listed per right register |
| CompositeBloqs.CompositeBloqBuilder.Finalize | cirq_qubitization/quantum_graph/composite_bloq.py:321-366 | succeeds exactly when the final soquets are accepted and are all the available ones; then every soquet ever handed out is the left end of exactly one connection and the result holds the connections and the parent registers |
| CompositeBloqs.InitialMapKeys | cirq_qubitization/quantum_graph/composite_bloq.py:213-228 | the initial map has exactly the names of the left registers |
| CompositeBloqs.InitialMapSpec | cirq_qubitization/quantum_graph/composite_bloq.py:213-228 | with distinct names, each left register maps to its boundary soquets |
| CompositeBloqs.InitialValid | cirq_qubitization/quantum_graph/composite_bloq.py:203-211 | the builder's starting state is linear |
| CompositeBloqs.ConsumedCompose | cirq_qubitization/quantum_graph/composite_bloq.py:271-281 | two consumptions in a row make one |
| CompositeBloqs.LinearAppend | cirq_qubitization/quantum_graph/composite_bloq.py:274-279 | using c1 and then, from what is left, c2 uses c1 + c2 once each |
| CompositeBloqs.RegsMissing | cirq_qubitization/quantum_graph/composite_bloq.py:262-267 | a register whose name is not supplied means the inputs are refused (see also lines 337-341) |
| CompositeBloqs.RegsShape | cirq_qubitization/quantum_graph/composite_bloq.py:261-272 | a soquet list of the wrong length means the inputs are refused |
| CompositeBloqs.UnavailableRefuses | cirq_qubitization/quantum_graph/composite_bloq.py:274-279 | meeting an unavailable or repeated soquet means the inputs are refused (see also lines 348-353) |
| CompositeBloqs.PublishStep | cirq_qubitization/quantum_graph/composite_bloq.py:289-299 | publishing the wires of one more right register keeps the state linear |
| MusicalScore.Allocator.constructor | cirq_qubitization/quantum_graph/musical_score.py:19-21 | a new allocator has an empty free list, counter 0 and no slot in use |
| MusicalScore.Allocator.Alloc | cirq_qubitization/quantum_graph/musical_score.py:23-28 | returns and removes the head of a non-empty free list, leaving the counter; otherwise returns the counter and increments it; the slot returned is not already in use |
| MusicalScore.Allocator.Free | cirq_qubitization/quantum_graph/musical_score.py:30-31 | appends the slot to the free list, leaving the counter |
| MusicalScore.FifoReuse | cirq_qubitization/quantum_graph/musical_score.py:23-31 | with nothing waiting, two freed slots come back in the order they were freed and the counter does not move |
| MusicalScore.FreshIncreasing | cirq_qubitization/quantum_graph/musical_score.py:18-28 | with nothing waiting, two allocations give consecutive fresh indices |
| MagicStateFactory.AllTCountAdditive | cirq_qubitization/surface_code/magic_state_factory.py:25-27 | the all-T count of MagicStateCount adds up over the parts of a computation, one Toffoli counts as four T operations, and without Toffolis it is the T count |
| MagicStateFactory.ParseReUse | cirq_qubitization/surface_code/magic_state_factory.py:115-120 | only 'space' and 'time' are accepted, anything else is the ValueError |
| MagicStateFactory.MakeMultiLevel | cirq_qubitization/surface_code/magic_state_factory.py:114-120 | a multi-level factory is built exactly when re_use is 'space' or 'time', and keeps its levels |
| MagicStateFactory.CeilDivFewest | cirq_qubitization/surface_code/magic_state_factory.py:105-107 | math.ceil(c / n) for n > 0 is the fewest rounds r with r·n ≥ c |
| MagicStateFactory.Collect | cirq_qubitization/surface_code/magic_state_factory.py:122-134 | the levels' values are collected exactly when none fails, in order; otherwise a level's error is the result |
| MagicStateFactory.Max | cirq_qubitization/surface_code/magic_state_factory.py:124-133 | max() of a non-empty list bounds every element and is one of them |
| MagicStateFactory.SumBoundsEach | cirq_qubitization/surface_code/magic_state_factory.py:126-131 | a sum of non-negative values bounds each of them |
| MagicStateFactory.SumNonnegative | cirq_qubitization/surface_code/magic_state_factory.py:126-131 | a sum of non-negative values is non-negative |
| MagicStateFactory.NFactoriesCosts | cirq_qubitization/surface_code/magic_state_factory.py:96-107 | N copies take N times the footprint; n_cycles fails exactly when N is 0 and otherwise is ⌈cycles / N⌉ |
| MagicStateFactory.MultiLevelCosts | cirq_qubitization/surface_code/magic_state_factory.py:122-134 | with 'space' the footprint is the largest level's and n_cycles the sum over levels; with 'time' the reverse; max() of no levels fails; a level's failure is the factory's |
| MagicStateFactory.SpaceReUseSmaller | cirq_qubitization/surface_code/magic_state_factory.py:122-127 | with non-negative footprints, re-using space never takes more qubits than re-using time |

## Left out

- Floating-point code is not modelled: the geometry and channel modules, and the `value`, `actual_value`, `arg` and `polar` methods of the rings. The single float input the exact code needs, the `side` of a point in `SplitRegionCollector.add_point`, is a `real` parameter.
- Circuit and tensor decompositions, cirq, quimb, numpy, networkx and drawing are not modelled; these are foreign libraries or I/O.
- networkx's `topological_sort` is replaced by a sort written here (`CallGraph.DiGraph.ReverseTopologicalSort`). It is proved sound: every node is listed after its successors, and a failure means the graph has a cycle. Which of the many valid orders networkx picks is not modelled. The sigmas do not depend on it: `CallGraph.DiGraph.SigmaTableUnique` shows the sigma equations have one solution on a graph without a cycle.
- sympy is a foreign call, so its results are inputs, not computed:
  - `RelativeNormSolver.Solve` receives the prime factorisation sympy would compute for it (`factorint`, `factor_prime`), and the primality test `is_prime_ideal` is a function parameter;
  - the symbols `new_symbol` returns are modelled as their names, as strings.
- CallGraph.GetBloqCallGraph / CallGraph.DiGraph.Build: the depth recorded for each node is tied to the graph: the root has 0, and every other node has one more than some node with an edge to it. It is not tied to the depth-first order of the callee lists. When a bloq is reachable at several depths, the contract admits any such depth, while the source records the depth of the first visit. With a max_depth, that choice decides which of those bloqs are expanded.
- CallGraph.DiGraph.Build and CallGraph.GetBloqCallGraph require a finite `universe` of bloqs closed under generalised expansion. This makes the recursion terminate. On an unbounded family of callees the source recurses without end, which the model does not represent.
- A bloq's own `build_call_graph` is a function parameter `callees`, and the generalizer is one too. The sympy-expression multiplicities are plain integers, and the `generalizer` sequence form (`_make_composite_generalizer`) is not modelled.
- ZSqrt2 `__eq__` against a plain int (compared as ZSqrt2(k, 0)) and its TypeError for other operand types (zsqrt2.py:136-141) are not modelled: the model's arguments are typed, and ints enter only through the explicit embedding `FromInt`.
- The `TypeError` of the ZW and ZSqrt2 `__pow__` for a non-int exponent cannot arise with typed arguments. Only the negative-exponent error is modelled.
- The integer and bit-level classical actions of the sub-bloqs used by the Kaliski steps are assumed, not derived from their source; that source is not part of this model. `BitwiseNot` is x ↦ −x − 1 mod 2^n and `AddK` is x ↦ x + k mod 2^n.
- GateRegisters.MakeRegisters: `Register.bitsize` is a `nat`. The source accepts any int in the dataclass, and a negative width has no meaning in the layout.
- ZSqrt2Ring.FloorDiv / ZSqrt2Ring.IsDivisibleBy / ZOmegaRing.FloorDiv / ZOmegaRing.IsDivisibleBy / ModDivision.Step6 / ModDivision.Iteration / ModDivision.KaliskiModInverse: a zero divisor or a zero modulus raises ZeroDivisionError in the source (zsqrt2.py:113-123, zw.py:215-223, the `% mod` of step 6). The model requires a nonzero divisor or modulus instead of modelling that error.
- MagicStateFactory.NFactoriesCosts: `math.ceil(n_cycles / n)` is the exact integer ceiling `CeilDiv`. It differs from the float quotient only beyond 2^53.
- The base factories' float-valued footprint and cycle formulas (`SimpleTFactory`) are inputs. So are `distillation_error` and `rejection_prob`, which are floats.
- Default arguments are not modelled, because Dafny has none: `size=0`, `parallelize=True`, `re_use='time'`, `ignore_decomp_failure=True`. Every call passes them explicitly.
- CompositeBloqs.CompositeBloqBuilder.AdvancedAdd / Finalize: the soquets supplied for a register are a flat sequence whose length must equal the register's wire count; otherwise the call fails with ShapeMismatch. numpy's shape-dependent indexing of `np.asarray(in_soqs[name])[li]` is not modelled:
  - an over-long array for a one-dimensional register is accepted by the source, and its extra elements are never consumed;
  - a flat list indexed by a tuple fails there with IndexError.
- CompositeBloqs: a `BloqInstance` carries a counter index `i` next to its bloq, so that two instances of equal bloqs are distinct. The source's `BloqInstance(bloq)` relies on object identity for that. `split`, `join`, `add` (a projection of `advanced_add`), `CompositeBloq`'s derived views and `replace` are not modelled.
- The register lists of `CompositeBloqBuilder` methods are required to have distinct names. `FancyRegisters` guarantees this in the source, but its file is not part of this model.
- RelativeNormSolver.Solve: the model does not prove that the remainder left by `factor_into_generators` is a unit when the factorisation is complete. Proving it needs unique factorisation in Z[√2].
  - Exactness of a returned solution is therefore stated under the condition that the remainder has norm 1. The remainder itself is characterised by `Remainder`.
  - Completeness, meaning that for r = |w|² `solve` returns some v, is not proved either.
  - What is proved: `Assemble` gives up exactly on an odd exponent of an inert prime, and every solution it assembles has the right norm.
- ZOmegaRing.Gcd: some rounding candidate of the Euclidean step lowers the norm, but the model does not prove it. That bound is a degree-8 polynomial inequality. So the source's final assertion (zw.py:241) is modelled as a None result, and the contract states IsGcd only for a Some result. The Z[√2] gcd (`ZSqrt2Ring.Gcd`) has the bound proved and always succeeds.
- ZSqrt2Ring.GcdOfCoprimeIsUnit / ZOmegaRing.GcdOfCoprimeIsUnit: the gcd of the two quotients x/g and y/g is proved to have norm 1 (a unit). The tests compare it with One, which holds only up to the unit the Euclidean loop happens to end on.
- SU2Cliffords.GenerateCliffords: the search is proved to return 24 matrices that are distinct up to sign and closed under the generators whenever it succeeds. That it succeeds for the S and H generators from the identity is not proved. Proving it means evaluating 24 × 2 products of ground Z[ω] matrices, which the verifier cannot do within its limits.
- SU2CliffordT: `to_sequence`, `_key_map`, numpy conversion and `__hash__` are not modelled; they use foreign libraries or floats.
- ControlledBloqs: the hash is modelled as any function of the equality key. Equal specs therefore hash equal, but Python's actual hash values are not modelled.
- QubitManager: `cirq.NamedQubit` is a (prefix, index) pair. The manager's `__str__` and the circuit-level `expand_composite_and_allocate_qubits` are not modelled; the latter is a cirq transformer.
- MusicalScore: only the slot allocator is modelled. The score layout and drawing (`cbloq_musical_score`, `draw`) need networkx and matplotlib.

## Findings

| source | as written | input that shows it | evidently intended | confidence | as-written member | corrected member |
|---|---|---|---|---|---|---|
| qualtran/resource_counting/_call_graph.py:66 | the symbol name is `'_' + prefix + str(counter)`, with nothing between the prefix and the counter | the first symbol for prefix "a1" and the eleventh for prefix "a" are both `_a10` | names unique across all prefixes, as the class docstring promises ("unique sympy symbols") | medium, not executed | CallGraph.AsWrittenNamesCollide | CallGraph.SymbolNameInjective |
| qualtran/rotation_synthesis/relative_norm/clifford_t.py:95-113 | compute_w takes the sign of a negative unit into (−1 + √2)^n; with target 0 that is 1 | solve(ZSqrt2(−1, 0)) with an empty factorisation returns One, and One·One* = 1, not −1 | None: no v ∈ Z[ω] has v·v* = −1, since v·v* is never negative | high, not executed | RelativeNorm.ComputeWMinusOne | RelativeNorm.WOfExponentCheckedSound |
| qualtran/rotation_synthesis/lattice/grid_operators.py:47-53 | the post-init check asks only that the four integer parts have an even sum, and likewise the four √2 parts | GridOperator([[ZSqrt2(1, 0), ZSqrt2(1, 0)], [ZSqrt2(0, 0), ZSqrt2(0, 0)]]) passes the check, but it is not a grid operator and `g @ g` cannot divide its upper-left entry by √2 | a grid operator (scaled by 1/√2, section 5.3 of Ross and Selinger, "Optimal ancilla-free Clifford+T approximation of z-rotations") needs all four integer parts of one parity, and its four √2 parts summing to an even number | medium, not executed | GridOperators.PostInitAdmitsNonGrid | GridOperators.ComposeClosed |
| cirq_qubitization/bit_tools.py:35-39 | the width check is `(val.bit_length() - 1) // 2 > width`, then the value is masked to width bits | iter_bits_twos_complement(100, 4) passes the check and yields 0, 1, 0, 0 (100 mod 16) | a value whose two's-complement form does not fit in width bits is refused, as the docstring says ("Its bitsize must fit within width") | medium, not executed | BitTools.IterBitsTwosAsWrittenTruncates | BitTools.IterBitsTwosSpec |
| cirq_qubitization/bit_tools.py:16-21 | with width 0 the f-string `f'{val:00b}'` prints one digit | iter_bits(0, 0) yields the single bit 0 | exactly width bits, as the docstring says ("The number of output bits") | medium, not executed | BitTools.IterBitsAsWrittenWidthZero | BitTools.IterBitsSpec |
| cirq_qubitization/qubit_manager.py:39-40 | without parallelize, qalloc takes `free[-n:]` and keeps `free[:-n]` | qalloc(0) on a manager with two free qubits and parallelize=False returns both qubits and marks them used, since `-0` is `0` | qalloc(0) returns no qubit | medium, not executed | QubitManager.TakeAsWrittenZero | QubitManager.TakeSpec |

The operations callers reach follow the source as written:
- `CallGraph.SymbolAllocator.NewSymbol` builds the name as written; its names are proved unique per prefix.
- `RelativeNormSolver.Solve` uses compute_w as written; `RelativeNormSolver.SolveChecked` is the solver with the sign check.
- `QubitManager.GreedyQubitManager.QAlloc` uses the slices as written.
- `BitTools.IterBitsAsWritten` and `BitTools.IterBitsTwosAsWritten` are the functions as written.

The corrected definitions stand beside them with the intended property proved:
- `CallGraph.SymbolName`;
- `RelativeNorm.ComputeWChecked`;
- `GridOperators.IsGridOp`;
- `BitTools.IterBits` and `BitTools.IterBitsTwos`;
- `QubitManager.Take`.

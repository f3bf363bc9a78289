# PyOptInterface core, modelled in Dafny

PyOptInterface is a modelling layer over several mathematical-programming solvers. This project models four parts of it.

- **The expression algebra** (`include/pyoptinterface/core.hpp`):
  - the value types `ScalarAffineFunction` (coefficient and variable vectors plus an optional constant) and `ScalarQuadraticFunction` (coefficient and two variable vectors plus an optional affine part), with their `+`, `-` and `*` operators;
  - `VariablePair`, the ordered key of a quadratic term;
  - the mutable accumulator `ExprBuilder`: a hash map of quadratic terms, a hash map of affine terms and an optional constant, with its `+=`, `-=` and `*=` operators, `degree`, `empty`, `clear`, `clean_nearzero_terms` and the conversions back to the two function types;
  - `canonicalize`, which merges duplicate terms and drops coefficients below a threshold (`COEFTHRESHOLD = 1e-12`).
- **The handle registries** of `lib/main.cpp`:
  - the monotone registry that `test_monotone`, `test_chunkedbv` and `some_operations` exercise;
  - the baseline `MapIndexer` and `VecIndexer`;
  - the four registries a COPT model keeps for its variables and constraints (`include/pyoptinterface/copt_model.hpp`).
- **The COPT Python layer** (`src/pyoptinterface_nb/copt.py`):
  - the objective-sense, primal, dual and termination status queries over the LP and MIP status tables;
  - `number_of_constraints` and the silent flag;
  - the `PrimalStart` dictionary that `optimize` hands to the solver as a MIP start.

Modules:

- `Forms` (`core_forms.dfy`): the function types, their denotation as coefficient functions, their constructors and the operators.
- `Terms` (`core_terms.dfy`): coefficient maps, merging, thresholding and `canonicalize`.
- `Builder` (`core_builder.dfy`): `ExprBuilder` as a class, specified against the polynomial value `Poly`.
- `Indexers` (`indexers.dfy`) and `RegistryScenarios` (`registry_scenarios.dfy`): the registries and their driver programs.
- `Copt` (`copt.dfy`): the COPT Python layer.
- `Wrappers` (`wrappers.dfy`): `Option` and `Result`.

## Semantics

A linear or quadratic function means its coefficient function:

- the coefficient of a variable (or of a variable pair) is the sum of the coefficients of every term that names it;
- the constant is 0 when it is absent.

Every operator and every builder operation is proved to act on these coefficients as algebra demands. The model also tracks whether a constant (or an affine part) is present, because the source keeps that distinction in an `std::optional`.

## Model

| member | source | states |
|---|---|---|
| Forms.MakePair | include/pyoptinterface/core.hpp:83-90 | the key of a quadratic term is ordered (`var1 <= var2`) and holds exactly the two variables given |
| Forms.MakePairSymmetric | include/pyoptinterface/core.hpp:138-139 | the terms (i, j) and (j, i) get the same key, and an ordered pair is its own key |
| Forms.ScalarAffineFunction.Size | include/pyoptinterface/core.hpp:62 | the size of a well-formed linear function is its number of terms |
| Forms.ScalarQuadraticFunction.Size | include/pyoptinterface/core.hpp:79 | the size of a well-formed quadratic function is its number of quadratic terms |
| Forms.AffineConstant | include/pyoptinterface/core.hpp:50 | a constant c has no terms, every variable coefficient 0 and constant c |
| Forms.AffineVariable | include/pyoptinterface/core.hpp:51 | a variable v has coefficient 1 on v, 0 elsewhere, and no constant |
| Forms.ScaledVariable | include/pyoptinterface/core.hpp:52-53 | `v * c` has coefficient c on v, 0 elsewhere, and no constant |
| Forms.ScaledVariableWithConstant | include/pyoptinterface/core.hpp:54-55 | `v * c1 + c2` has coefficient c1 on v, 0 elsewhere, and constant c2 |
| Forms.AffineFromVectors | include/pyoptinterface/core.hpp:56-58 | from parallel vectors of equal length: keeps both vectors and the optional constant |
| Forms.QuadraticFromVectors | include/pyoptinterface/core.hpp:74-76 | from three parallel vectors of equal length: keeps the vectors and the optional affine part |
| Forms.OptPlus | include/pyoptinterface/core.hpp:47 | the sum of two optional constants is absent exactly when both are; otherwise its value is the sum of their values |
| Forms.OptScale | include/pyoptinterface/core.hpp:47 | scaling keeps presence and multiplies the value |
| Forms.AffinePlus | include/pyoptinterface/core.hpp:151-152 | every coefficient of `a + b` is the sum of the coefficients of a and b, and so is the constant |
| Forms.AffineScale | include/pyoptinterface/core.hpp:187-188 | every coefficient of `a * c`, and the constant, is c times that of a |
| Forms.ScaleAllElements | include/pyoptinterface/core.hpp:187-188 | scaling a coefficient vector multiplies each entry in its own slot: the i-th entry becomes `cs[i] * c` |
| Forms.OptAffinePlus | include/pyoptinterface/core.hpp:71 | the sum of two optional affine parts is well formed, and absent exactly when both are |
| Forms.QuadraticPlus | include/pyoptinterface/core.hpp:161-162 | pair, linear and constant coefficients of the sum are the sums of those of the operands |
| Forms.QuadraticScale | include/pyoptinterface/core.hpp:193-194 | pair, linear and constant coefficients are scaled by c |
| Forms.AffineAsQuadratic | include/pyoptinterface/core.hpp:157-160 | a linear function read as quadratic has no pair terms and the same linear coefficients and constant |
| Forms.AffineTimes | include/pyoptinterface/core.hpp:191-192 | the product of two linear functions is well formed; its affine part is absent exactly when neither has a constant, and it has no pair terms exactly when a factor has no terms |
| Forms.RowCoef | include/pyoptinterface/core.hpp:191-192 | the pair terms contributed by one term `c·x_v` of the first factor give an ordered pair c times the second factor's coefficient of v's partner in the pair, and 0 when v is not in it |
| Forms.CrossTermsCoef | include/pyoptinterface/core.hpp:191-192 | the pair terms of a term list times a linear function give every ordered pair (u, w) the coefficient `a_u·b_u` for a square and `a_u·b_w + a_w·b_u` otherwise |
| Forms.AffineTimesPairs | include/pyoptinterface/core.hpp:191-192 | in `a * b`, every ordered pair gets its coefficient in the product of the two polynomials, and an unordered key gets none |
| Forms.SquareOfSumExample | include/pyoptinterface/core.hpp:191-192 | `(x0 + x1) * (x0 + x1)` has coefficient 1 on `x0*x0` and on `x1*x1`, and 2 on `x0*x1` |
| Forms.AffineTimesLinearPart | include/pyoptinterface/core.hpp:191-192 | the linear coefficient of v in `a * b` is `const(a)·b_v + const(b)·a_v` |
| Forms.AffineTimesConstant | include/pyoptinterface/core.hpp:191-192 | the constant of `a * b` is the product of the constants |
| Forms.AsAffine | include/pyoptinterface/core.hpp:144-150 | a scalar, variable or linear operand converted to a linear function keeps its coefficients and constant |
| Forms.AsQuadratic | include/pyoptinterface/core.hpp:153-160 | any operand converted to a quadratic function keeps its pair, linear and constant coefficients |
| Forms.Add | include/pyoptinterface/core.hpp:144-162 | the sum of two operands is well formed, and its degree is the larger of theirs |
| Forms.Negate | include/pyoptinterface/core.hpp:164-182 | negation keeps the degree and negates every coefficient |
| Forms.Sub | include/pyoptinterface/core.hpp:164-182 | the difference of two operands is well formed, and its degree is the larger of theirs |
| Forms.Mul | include/pyoptinterface/core.hpp:184-194 | defined for the overloads that exist (degrees summing to at most 2); the degree of the product is the sum of the degrees |
| Forms.AddDenotesSum | include/pyoptinterface/core.hpp:144-162 | every pair, linear and constant coefficient of `a + b` is the sum of those of a and b |
| Forms.SubDenotesDifference | include/pyoptinterface/core.hpp:164-182 | every coefficient of `a - b` is the difference of those of a and b |
| Forms.ScalarTimesDenotesScaling | include/pyoptinterface/core.hpp:184-194 | for `c * x`, every coefficient is c times that of x |
| Forms.TimesScalarDenotesScaling | include/pyoptinterface/core.hpp:184-194 | for `x * c`, every coefficient is c times that of x |
| Forms.VariableTimesVariable | include/pyoptinterface/core.hpp:186 | `u * w` has coefficient 1 on the pair {u, w}, 0 on every other pair, and no affine part |
| Forms.LinearTimesDenotesProduct | include/pyoptinterface/core.hpp:186-192 | the product of two degree-1 operands is the product of their polynomials: every ordered pair gets `a_u·b_u` or `a_u·b_w + a_w·b_u`, every unordered key 0, every variable `ca·b_v + cb·a_v`, and the constant `ca·cb` |
| Terms.AddTerm | include/pyoptinterface/core.hpp:140-141 | adding a term adds its key and increases that key's coefficient by c, leaving the others alone |
| Terms.Merged | include/pyoptinterface/core.hpp:63 | merging a term list gives exactly its keys, each with the sum of its coefficients |
| Terms.Kept | include/pyoptinterface/core.hpp:137 | a key survives thresholding exactly when it was present and its magnitude reaches the threshold (so with a threshold of 0 or less every entry, zeros included, stays); every coefficient becomes its trimmed value |
| Terms.KeptIdempotent | include/pyoptinterface/core.hpp:137 | thresholding twice is the same as thresholding once |
| Terms.DefaultThresholdExample | include/pyoptinterface/core.hpp:11 | at the default threshold `1e-12`, an entry of `1e-13` is dropped and one of `1e-11` kept |
| Terms.MapAdd | include/pyoptinterface/core.hpp:119 | adding coefficient maps: the keys are the union, coefficients add |
| Terms.MapAddCommutes | include/pyoptinterface/core.hpp:119 | adding coefficient maps is commutative |
| Terms.MapScale | include/pyoptinterface/core.hpp:127 | scaling a coefficient map keeps its keys and multiplies each value |
| Terms.CanonicalIsFixpoint | include/pyoptinterface/core.hpp:63 | the coefficients of a canonical term list are unchanged by the threshold |
| Terms.Materialize | include/pyoptinterface/core.hpp:60 | a map written out as term vectors: distinct keys, exactly the map's keys, each with its coefficient |
| Terms.AccumulateInto | include/pyoptinterface/core.hpp:140-141 | repeated term insertion: the coefficient of each key is the old one plus the sum over the list |
| Terms.AccumulatedIsMapAdd | include/pyoptinterface/core.hpp:140-141 | inserting a term list into a map equals adding the list's merged map |
| Terms.CanonicalizeAffine | include/pyoptinterface/core.hpp:63 | canonical result (distinct variables, every coefficient at least the threshold in magnitude); a variable remains exactly when it occurred and its merged coefficient reaches the threshold; each coefficient is the trimmed merged one; the constant is unchanged |
| Terms.CanonicalizeExample | include/pyoptinterface/core.hpp:63 | `x0*2 + x0*3 - x1` canonicalizes to exactly the variables x0 and x1, with coefficients 5 and -1 |
| Terms.CanonicalizeAffineTwice | include/pyoptinterface/core.hpp:63 | canonicalising twice equals canonicalising once: the same variable set, the same coefficients and constant, and the second result is canonical too |
| Terms.CanonicalizeQuadratic | include/pyoptinterface/core.hpp:80 | ordered, distinct, thresholded pair terms with trimmed merged coefficients; a pair key remains exactly when it occurred and its merged coefficient reaches the threshold; the affine part canonicalised with the same threshold (same variable rule, constant kept) |
| Terms.CanonicalizePairTerms | include/pyoptinterface/core.hpp:80 | the pair terms alone: ordered, distinct keys, exactly those that occurred with a merged coefficient reaching the threshold, each with its trimmed coefficient |
| Terms.CanonicalizeQuadraticTwice | include/pyoptinterface/core.hpp:80 | canonicalising a quadratic form twice equals doing it once: the same pair keys and affine variables, the same coefficients, affine-part presence and constant, and a canonical second result |
| Builder.VariablePoly | include/pyoptinterface/core.hpp:111 | the value of a builder started from v: coefficient 1 on v, nothing else |
| Builder.AffinePoly | include/pyoptinterface/core.hpp:112 | the value of a builder started from a linear function has the same coefficients and constant |
| Builder.QuadraticPoly | include/pyoptinterface/core.hpp:113 | the value of a builder started from a quadratic function has the same pair, linear and constant coefficients |
| Builder.Plus | include/pyoptinterface/core.hpp:115-119 | the sum of two builder values: every coefficient adds; the constant is absent exactly when both are |
| Builder.Scaled | include/pyoptinterface/core.hpp:127 | scaling keeps the key sets and the constant's presence |
| Builder.ScaledCoefficients | include/pyoptinterface/core.hpp:127 | scaling multiplies every coefficient and the constant by c |
| Builder.ScaledDegree | include/pyoptinterface/core.hpp:127 | scaling keeps the degree |
| Builder.ScaleByCoef | include/pyoptinterface/core.hpp:127-131 | scaling by an absent constant contributes zero to every coefficient |
| Builder.OptTimes | include/pyoptinterface/core.hpp:108 | the product constant is present exactly when both are, and its value is their product |
| Builder.Cross | include/pyoptinterface/core.hpp:128-131 | the pair terms of the product of two linear parts: ordered keys, one per pair of variables |
| Builder.Times | include/pyoptinterface/core.hpp:127-131 | the product of two well-formed values is well formed (its coefficients are stated by `Builder.TimesCoefficients`) |
| Builder.CrossCoefOf | include/pyoptinterface/core.hpp:128-131 | every ordered pair's coefficient in the product of two linear parts is `a_u·b_u` for a square and `a_u·b_w + a_w·b_u` otherwise, zero off the product's pairs |
| Builder.ProductAffineCoef | include/pyoptinterface/core.hpp:127-131 | the linear coefficient of v in a product is `cy·x_v + cx·y_v` |
| Builder.ProductQuadraticCoef | include/pyoptinterface/core.hpp:127-131 | the pair coefficient of p in a product is the cross coefficient of the linear parts plus `cy·x_p + cx·y_p` |
| Builder.ScaledQuadraticCoef | include/pyoptinterface/core.hpp:127-131 | each side's pair terms scaled by the other's constant contribute `cy·x_p + cx·y_p` |
| Builder.TimesCoefficients | include/pyoptinterface/core.hpp:127-131 | every coefficient of `x * y`: pairs as above, linear `cy·x_v + cx·y_v`, constant `cx·cy`, absent constants counting as zero |
| Builder.TimesDegree | include/pyoptinterface/core.hpp:127-131 | the degree of a product is at most the sum of the degrees; two degree-1 values give degree 2 |
| Builder.PairsOfCommutes | include/pyoptinterface/core.hpp:128-131 | the pair set of a product does not depend on the order of the factors |
| Builder.CrossCoefCommutes | include/pyoptinterface/core.hpp:128-131 | each pair coefficient of a product does not depend on the order of the factors |
| Builder.CrossCommutes | include/pyoptinterface/core.hpp:128-131 | the pair terms of a product do not depend on the order of the factors |
| Builder.TimesCommutes | include/pyoptinterface/core.hpp:127-131 | `x * y == y * x` for builder values |
| Builder.TimesConstantIsScaling | include/pyoptinterface/core.hpp:127 | multiplying by a constant value is the same as `*= c` |
| Builder.PlusEmpty | include/pyoptinterface/core.hpp:110-113 | adding to the empty builder gives the added value |
| Builder.PlusQuadraticPoly | include/pyoptinterface/core.hpp:118 | accumulating a quadratic function's terms adds its value |
| Builder.ExprBuilder.constructor | include/pyoptinterface/core.hpp:110 | a new builder is empty |
| Builder.ExprBuilder.FromVariable | include/pyoptinterface/core.hpp:111 | the builder's value is the variable |
| Builder.ExprBuilder.FromAffine | include/pyoptinterface/core.hpp:112 | the builder's value is the linear function |
| Builder.ExprBuilder.FromQuadratic | include/pyoptinterface/core.hpp:113 | the builder's value is the quadratic function |
| Builder.ExprBuilder.Empty | include/pyoptinterface/core.hpp:133 | empty exactly when there are no terms and no constant |
| Builder.ExprBuilder.Degree | include/pyoptinterface/core.hpp:134 | 2 exactly when there are quadratic terms, 0 exactly when there are no terms, otherwise 1 |
| Builder.ExprBuilder.Clear | include/pyoptinterface/core.hpp:136 | afterwards there are no terms and no constant |
| Builder.ExprBuilder.AddAffineTerm | include/pyoptinterface/core.hpp:140-141 | the coefficient of i grows by c; nothing else changes |
| Builder.ExprBuilder.AddQuadraticTerm | include/pyoptinterface/core.hpp:138-139 | the coefficient of the ordered pair of i and j grows by c; nothing else changes |
| Builder.ExprBuilder.PlusConstant | include/pyoptinterface/core.hpp:115 | the new value is the old value plus c |
| Builder.ExprBuilder.PlusVariable | include/pyoptinterface/core.hpp:116 | the new value is the old value plus v |
| Builder.ExprBuilder.PlusAffine | include/pyoptinterface/core.hpp:117 | the new value is the old value plus the linear function |
| Builder.ExprBuilder.PlusQuadraticTerms | include/pyoptinterface/core.hpp:118 | the pair terms of the quadratic function are added in |
| Builder.ExprBuilder.PlusQuadratic | include/pyoptinterface/core.hpp:118 | the new value is the old value plus the quadratic function |
| Builder.ExprBuilder.PlusBuilder | include/pyoptinterface/core.hpp:119 | the new value is the old value plus the other builder's value, even when the other builder is this one |
| Builder.ExprBuilder.MinusConstant | include/pyoptinterface/core.hpp:121 | the new value is the old value minus c |
| Builder.ExprBuilder.MinusVariable | include/pyoptinterface/core.hpp:122 | the new value is the old value minus v |
| Builder.ExprBuilder.MinusAffine | include/pyoptinterface/core.hpp:123 | the new value is the old value minus the linear function |
| Builder.ExprBuilder.MinusQuadratic | include/pyoptinterface/core.hpp:124 | the new value is the old value minus the quadratic function |
| Builder.ExprBuilder.MinusBuilder | include/pyoptinterface/core.hpp:125 | the new value is the old value minus the other builder's value |
| Builder.ExprBuilder.TimesConstant | include/pyoptinterface/core.hpp:127 | the new value is the old value scaled by c |
| Builder.ExprBuilder.TimesPoly | include/pyoptinterface/core.hpp:128-131 | when the degrees sum to at most 2, the new value is the product of the old value and the operand |
| Builder.ExprBuilder.TimesVariable | include/pyoptinterface/core.hpp:128 | the new value is the product of the old value and v |
| Builder.ExprBuilder.TimesAffine | include/pyoptinterface/core.hpp:129 | the new value is the product of the old value and the linear function |
| Builder.ExprBuilder.TimesQuadratic | include/pyoptinterface/core.hpp:130 | the new value is the product of the old value and the quadratic function |
| Builder.ExprBuilder.TimesBuilder | include/pyoptinterface/core.hpp:131 | the new value is the product of the old value and the other builder's value |
| Builder.ExprBuilder.CleanNearzeroTerms | include/pyoptinterface/core.hpp:137 | both term maps are thresholded; the constant is kept |
| Builder.ExprBuilder.ToAffine | include/pyoptinterface/core.hpp:60 | a builder of degree at most 1 as a linear function: distinct variables, exactly the builder's, with its coefficients and constant |
| Builder.ExprBuilder.ToQuadratic | include/pyoptinterface/core.hpp:77 | a builder as a quadratic function: exactly the builder's pair keys, each stored once and in order, with their coefficients; no affine part exactly when it has no affine terms and no constant, otherwise one holding exactly the affine keys (distinct) and the builder's constant as it is, present or absent |
| Builder.NegatedAffinePoly | include/pyoptinterface/core.hpp:123 | subtracting a linear function adds its negation |
| Builder.NegatedQuadraticPoly | include/pyoptinterface/core.hpp:124 | subtracting a quadratic function adds its negation |
| Builder.AffinePlusAgrees | include/pyoptinterface/core.hpp:151-152 | `a + b` on linear functions agrees with the builder sum |
| Builder.SymmetricTermsMerge | include/pyoptinterface/core.hpp:138-139 | adding (i, j, c1) and then (j, i, c2) leaves a single term with coefficient c1 + c2 |
| Builder.AffineRoundTrip | include/pyoptinterface/core.hpp:60 | a linear function through a builder and back keeps its variable set, every coefficient and its constant, with duplicates merged |
| Builder.QuadraticRoundTrip | include/pyoptinterface/core.hpp:77 | a quadratic form through a builder and back keeps its pair keys (stored in order, merged), variables, coefficients and constant; the affine part returns exactly when it held a term or a constant |
| Indexers.LivePositionsContiguous | lib/main.cpp:113-141 | the positions of live handles are exactly 0 .. live count − 1, in handle order |
| Indexers.LiveBelowAfterDelete | lib/main.cpp:120-122 | deleting a handle lowers the count below every later handle by one |
| Indexers.DeleteShiftsLater | lib/main.cpp:158-166 | after a delete the deleted handle maps to −1, later live handles move down by one, earlier ones stay |
| RegistryScenarios.DeleteTwoOfFive | lib/main.cpp:158-166 | five handles with 1 and 3 deleted: handles 0, 2, 4 are at positions 0, 1, 2 and handles 1, 3 report −1 |
| Indexers.NoDeletionIsIdentity | lib/main.cpp:79-91 | without deletions a handle's position is the handle itself, and −1 past the end |
| Indexers.MonotoneIndexer.constructor | lib/main.cpp:115 | a new registry has no handles |
| Indexers.MonotoneIndexer.AddIndex | lib/main.cpp:116-119 | the new handle is the old size; it is live, takes the next position and raises the live count by one |
| Indexers.MonotoneIndexer.AddIndices | lib/main.cpp:154-155 | n live handles are appended and the first of them is returned |
| Indexers.MonotoneIndexer.DeleteIndex | lib/main.cpp:120-122 | the handle is no longer live; the live count drops by one if it was live |
| Indexers.MonotoneIndexer.GetIndex | lib/main.cpp:140 | the number of live handles below h if h is live, −1 otherwise |
| Indexers.MapIndexer.constructor | lib/main.cpp:7-9 | a new indexer maps nothing |
| Indexers.MapIndexer.AddIndex | lib/main.cpp:11-16 | the new handle is the old size and maps to itself |
| Indexers.MapIndexer.GetIndex | lib/main.cpp:18-26 | a handle below the size maps to itself; any other gives −1 |
| Indexers.VecIndexer.constructor | lib/main.cpp:29-31 | a new indexer is empty |
| Indexers.VecIndexer.AddIndex | lib/main.cpp:33-38 | the new handle is the old size and is appended as its own position |
| Indexers.VecIndexer.GetIndex | lib/main.cpp:40-47 | a handle below the size maps to itself; any other gives −1 |
| Indexers.ModelIndexers.constructor | include/pyoptinterface/copt_model.hpp:93-100 | four fresh, empty registries |
| Indexers.ModelIndexers.AddVariable | include/pyoptinterface/copt_model.hpp:94 | the new variable's index is the next handle of the variable registry |
| Indexers.ModelIndexers.AddConstraint | include/pyoptinterface/copt_model.hpp:96-100 | the new constraint gets the next handle of its own kind's registry; the others do not change |
| Indexers.ModelIndexers.DeleteConstraint | include/pyoptinterface/copt_model.hpp:96-100 | the constraint's handle is marked deleted in its own kind's registry, and only that registry changes |
| Indexers.ModelIndexers.ConstraintPosition | include/pyoptinterface/copt_model.hpp:90 | the position of a constraint is looked up in its own kind's registry |
| RegistryScenarios.LiveBelowTwoRanges | lib/main.cpp:59-70 | after two deleted ranges, a handle's position is the handle minus the deleted handles below it |
| RegistryScenarios.NoneLiveBelow | lib/main.cpp:158-166 | with every handle below h deleted, a live h has position 0 |
| RegistryScenarios.IssueHandles | lib/main.cpp:116-119 | n calls of `add_index` return consecutive handles from the old size |
| RegistryScenarios.DeleteAll | lib/main.cpp:120-122 | deleting distinct live handles removes exactly them and lowers the live count by their number |
| RegistryScenarios.MonotoneScenario | lib/main.cpp:113-141 | the handles of the second and third batches are 10..19 and 20..24, and handle 24 ends at position 15 |
| RegistryScenarios.ChunkedScenario | lib/main.cpp:143-167 | `add_indices(M)` returns N, and after deleting handles 0..i handle i+1 is at position 0, so nothing is reported wrong |
| RegistryScenarios.RangeWorkload | lib/main.cpp:50-76 | after each deletion range every handle's position is the handle minus the deleted handles below it, −1 for a deleted one |
| Copt.GetObjSenseAsWritten | src/pyoptinterface_nb/copt.py:72-79 | as written, the query never returns a sense; it raises `NameError` exactly for the two known sense codes and `ValueError` with the raw code for every other code |
| Copt.GetObjSense | src/pyoptinterface_nb/copt.py:72-79 | as intended: minimise or maximise for the two codes, and `ValueError` with the raw code for every other code |
| Copt.ObjSenseNameError | src/pyoptinterface_nb/copt.py:72-79 | any minimising model shows the difference between the two |
| Copt.GetPrimalStatus | src/pyoptinterface_nb/copt.py:82-91 | a feasible point exactly when the solution flag of the model's kind (MIP or LP) is nonzero |
| Copt.GetDualStatus | src/pyoptinterface_nb/copt.py:94-99 | no solution for a MIP; for an LP, a feasible point exactly when it has an LP solution |
| Copt.IsMip | src/pyoptinterface_nb/copt.py:308-310 | a model is a MIP when its `IsMIP` attribute is positive; zero or a negative value means an LP |
| Copt.LpStatusEntry | src/pyoptinterface_nb/copt.py:104-141 | the LP table has an entry for exactly the nine LP status codes |
| Copt.MipStatusEntry | src/pyoptinterface_nb/copt.py:145-182 | the MIP table has an entry for exactly the nine MIP status codes |
| Copt.GetTerminationStatus | src/pyoptinterface_nb/copt.py:185-194 | succeeds exactly when the raw status of the model's kind is a code of that kind's table, and otherwise raises `ValueError` with that raw status; which code means optimal or a numerical error is in `OptimalAndNumericalCodes` |
| Copt.GetRawStatusString | src/pyoptinterface_nb/copt.py:197-206 | succeeds for the same raw statuses as `get_terminationstatus` and raises the same error otherwise (both read the same entry, `StatusQueriesAgree`) |
| Copt.StatusQueriesAgree | src/pyoptinterface_nb/copt.py:185-206 | both queries read the same table entry; they succeed together exactly when the raw status is one of that table's codes, and otherwise raise the same error |
| Copt.LpOptimalOnly | src/pyoptinterface_nb/copt.py:104-141 | whatever the codes, the LP table says optimal only for the optimal code |
| Copt.LpOptimalRow | src/pyoptinterface_nb/copt.py:104-141 | the optimal LP code reaches the optimal row when no later row shares its code |
| Copt.MipOptimalOnly | src/pyoptinterface_nb/copt.py:145-182 | whatever the codes, the MIP table says optimal only for the optimal code |
| Copt.MipOptimalRow | src/pyoptinterface_nb/copt.py:145-182 | the optimal MIP code reaches the optimal row when no later row shares its code |
| Copt.LpOptimalCode | src/pyoptinterface_nb/copt.py:104-141 | with distinct codes, the LP table says optimal for the optimal code and no other |
| Copt.LpNumericalCodes | src/pyoptinterface_nb/copt.py:104-141 | with distinct codes, the LP table reports a numerical error exactly for the numerical and unfinished codes |
| Copt.MipOptimalCode | src/pyoptinterface_nb/copt.py:145-182 | with distinct codes, the MIP table says optimal for the optimal code and no other |
| Copt.MipNumericalCode | src/pyoptinterface_nb/copt.py:145-182 | with distinct codes, the MIP table reports a numerical error exactly for the unfinished code |
| Copt.OptimalAndNumericalCodes | src/pyoptinterface_nb/copt.py:185-194 | a model is reported optimal exactly at the optimal code of its kind, and as a numerical error exactly at that kind's numerical codes |
| Copt.GetSilent | src/pyoptinterface_nb/copt.py:209-210 | silent exactly when `LogToConsole` is 0; any other value means verbose (its partner is `CoptModel.SetSilent`) |
| Copt.NumberOfConstraints | src/pyoptinterface_nb/copt.py:299-303 | the row count for linear, the quadratic-constraint count for quadratic, and `ValueError` exactly for the SOS types |
| Copt.DictGet | src/pyoptinterface_nb/copt.py:47 | `None` exactly when the variable is not a key; with distinct keys, the value stored with it |
| Copt.DictSet | src/pyoptinterface_nb/copt.py:59-61 | a new key is appended with its value; with distinct keys, a present key's value is replaced in its own slot; every entry for another key stays where it was |
| Copt.DictSetPresentKeys | src/pyoptinterface_nb/copt.py:59-61 | storing under a present key keeps the key list and its distinctness |
| Copt.DictSetAbsentKeys | src/pyoptinterface_nb/copt.py:59-61 | storing under a new key appends it to the key list, keeping the keys distinct |
| Copt.DictSetGet | src/pyoptinterface_nb/copt.py:47 | a stored start value is the one read back; other variables read what they read before |
| Copt.DictSetKeys | src/pyoptinterface_nb/copt.py:59-61 | keys stay distinct; the key set gains exactly the variable stored |
| Copt.StartListsMatch | src/pyoptinterface_nb/copt.py:370-373 | the variable and value lists handed to `add_mip_start` are parallel: the i-th value is the start of the i-th variable |
| Copt.CoptModel.constructor | src/pyoptinterface_nb/copt.py:255-262 | a new model has an empty start dict |
| Copt.CoptModel.SetSilent | src/pyoptinterface_nb/copt.py:225-229 | sets `LogToConsole` to 0 for true and 1 for false, so `get_silent` (lines 209-210) then reads back the value set; nothing else changes |
| Copt.CoptModel.SetPrimalStart | src/pyoptinterface_nb/copt.py:59-61 | the dict is updated like a Python dict, keeps distinct keys and reads back the new value |
| Copt.CoptModel.Optimize | src/pyoptinterface_nb/copt.py:368-375 | for a MIP, the stored starts are submitted once, keys and values in matching order, and the dict is emptied; for an LP the dict is untouched; the solver is called once |

## Left out

- Integer width: handles and positions are unbounded; the source stores them as 32-bit `IndexT`/`int`.
- Floating point: coefficients are exact reals. IEEE rounding, and so the exact outcome of the `1e-12` threshold on rounded sums, is not modelled.
- Hash-map iteration order (the `wyhash`-keyed `ankerl::unordered_dense` maps): `Terms.Materialize` promises a permutation of the map's entries, not a particular order.
- `container.hpp` is not part of this model. `MonotoneVector` and `ChunkedBitVector` are modelled by what they promise (handle → number of live handles below it, −1 once deleted), not by their caching or bit-chunk layout.
- `core.cpp` is not part of this model: only the declarations in `core.hpp` are. The following rules are this model's reading of those declarations and of the design, not something a visible implementation shows:
  - when a constant or affine part is present;
  - the `*=` product formula;
  - `ToAffine` requiring degree at most 1;
  - `Forms.AffinePlus` and `Forms.QuadraticPlus` concatenate the two term vectors without merging duplicate terms, so the size of a sum is the sum of the sizes;
  - `Terms.CanonicalizeQuadratic` also canonicalises the affine part with the same threshold and leaves its constant unchanged;
  - in `*=` between builders, each side's terms are scaled by the other side's constant, and an absent constant counts as 0: multiplying by a builder with no constant drops the other side's terms from those scaled parts (`Builder.ScaleBy`).
- Degree overflow and mismatched vector lengths are contract violations in the design (they fail fast in the source); the model makes them preconditions: `Forms.Mul`, `Builder.Times` and the `ExprBuilder.Times*` methods require the degree of the builder plus the degree of the other factor to be at most 2 (so `TimesQuadratic` admits a constant builder times any quadratic form, or a degree-1 builder times one with no pair terms, and `TimesVariable` a builder of degree at most 1), and `Forms.AffineFromVectors` and `Forms.QuadraticFromVectors` require vectors of equal length. The model does not say what happens when they are broken.
- Copt.DictGet, Copt.DictSet, Copt.CoptModel.SetPrimalStart and Copt.CoptModel.Optimize compare `VariableIndex` keys by their index. The Python binding (`src/core_ext.cpp`) gives `VariableIndex` no `__eq__` or `__hash__`, so `mip_start_values` compares the wrapper objects by identity: two distinct wrappers with the same index are two keys in Python (two start entries handed to `add_mip_start`) but one key in the model. Object identity is not modelled.
- `canonicalize` mutates a struct in place. It is modelled as a method returning the new value, since the structs are plain values with no aliasing.
- The `VariableIndex` overloads `add_affine_term` and `add_quadratic_term` forward to `_add_affine_term` and `_add_quadratic_term`, so they are not modelled separately.
- Native solver calls go through `RawModel`, COPT's `Env`, DLL discovery and the raw attribute getters. The attribute values they return are parameters of the model (`RawAttributes`).
- Not modelled:
  - the attribute dispatch tables (`_get_entity_attribute` and friends);
  - `number_of_variables` and `version_string`;
  - the Gurobi and Mosek drivers in `main.cpp`;
  - `fmt::print` output;
  - the 5·10⁸-handle benchmarks (only their logic is modelled, by `RegistryScenarios.RangeWorkload` for any size).

## Findings

| source | as written | input that shows it | evidently intended | confidence | as-written member | corrected member |
|---|---|---|---|---|---|---|
| src/pyoptinterface_nb/copt.py:72-79 | `get_objsense` returns `ObjectiveSense.Minimize` / `ObjectiveSense.Maximize`, but the module never imports `ObjectiveSense` (lines 18-32), so both branches raise `NameError` | any model whose `ObjSense` attribute equals `COPT_MINIMIZE` | return the sense named by the raw code; `ValueError` only for unknown codes | not executed | Copt.GetObjSenseAsWritten (with Copt.ObjSenseNameError) | Copt.GetObjSense |

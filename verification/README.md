# Countdown solver: a verified model

The original program solves the "countdown" numbers puzzle with an optimising
SMT solver. Given a list of integers and a target, it picks three things:

- an ordering (permutation) of all the input positions;
- one operation tag (`+`, `-`, `*`, `/`) per gap between consecutive numbers;
- a count `used` of numbers actually consumed.

The numbers are combined left to right. The solver minimises first the distance
of the final result from the target, then `used`. Division applies only when it
is exact and the divisor is non-zero. Otherwise the running result passes
through unchanged. Transitions at or beyond `used - 1` are gated off: the
running result is copied forward.

The project has four modules:

- `Operations` (`operations.dfy`): the transition evaluator `Apply` and its
  algebra. Integers are unbounded, as in the solver's `Int` sort. Dafny's `/`
  and `%` are Euclidean, like SMT-LIB's integer `div`/`mod`, so the division
  rule carries over without change.
- `Candidates` (`candidates.dfy`): the candidate space and the gated trace.
  `Constraints` restates the solver's constraint system as a relation over its
  unknowns. `ConstraintsCharacterize` proves that, for each admissible
  candidate, this system has exactly one model: the functional trace `Results`,
  with `Final` and `Distance` computed from it. For any other candidate it has
  no model. `Eval` is a variable-length reference
  semantics, and `FinalIsEval` proves the gated trace agrees with it.
- `Enumeration` (`enumeration.dfy`): concatenating lists of lists, and listing
  every word of length `k` over an alphabet, with exactness lemmas.
- `Search` (`search.dfy`): an exhaustive reference search `Solve` stands in for
  the solver's `minimize`/`check`. Its postcondition is the solver's promise:
  the result is admissible and lexicographically minimal. `Extract` builds the
  reported trace, and `CountingStrategy` chains the two steps.

The comment at `project.py:45` calls the distance objective "minimize the
number of used numbers". The code at lines 107-108 declares distance first, so
distance is the primary key. The model follows the code.

## Model

The definitions `Candidates.Valid` (project.py:79-83), `Candidates.Gated` (line 98),
`Candidates.Final` (line 101), `Candidates.Constraints` (lines 79-104) and
`Candidates.LexLe` (lines 107-108) model their lines directly; the rows below
list the lemmas and contracts that state what these definitions mean.

| member | source | states |
|---|---|---|
| `Operations.Apply` | project.py:65-75 | Add and Sub are exact (`r - right == left`, `r + right == left`); Mul is the exact unbounded product; a Div with a non-zero divisor that divides exactly gives the exact quotient (`r * right == left`); any other Div, including division by zero, returns the left operand unchanged |
| `Operations.DivByZeroKeepsLeft` | project.py:74-75 | dividing by zero leaves the running result unchanged |
| `Operations.MulThenDivRestores` | project.py:71-75 | for any non-zero `y`, `Div` by `y` undoes `Mul` by `y`: the exact, unbounded product is always exactly divisible |
| `Operations.AddThenSubRestores` | project.py:65-69 | `Sub` undoes `Add`: both are exact unbounded integer arithmetic |
| `Operations.DivIsNoOpIff` | project.py:74-75 | a Div step leaves the running result unchanged exactly when the division is not applicable, the divisor is 1, or the running result is 0 |
| `Candidates.ResultsUpTo` | project.py:28-98 | the trace built up to position `k` has exactly `k` entries (the fixed list of `n` result unknowns) |
| `Candidates.Distance` | project.py:103-104 | the distance is non-negative; it is zero exactly when the final result equals the target; it is `final - target` or `target - final` |
| `Candidates.TraceStart` | project.py:86 | the first intermediate result is the number at position `perm[0]` |
| `Candidates.TraceStep` | project.py:88-98 | each result `i + 1` is the gated transition `i` applied to result `i` |
| `Candidates.TraceApplies` | project.py:88-95 | for `i < used - 1`, result `i + 1` is the candidate's operation applied to result `i` and `numbers[perm[i + 1]]` |
| `Candidates.PassThrough` | project.py:97-98 | for `used - 1 <= i < n - 1`, result `i + 1` equals result `i` |
| `Candidates.ResultsStableAfterUsed` | project.py:97-101 | every result from position `used - 1` to the end equals the final result |
| `Candidates.SingleNumberFinal` | project.py:83-86 | with `used == 1` no operation applies, and the final result is `numbers[perm[0]]` |
| `Candidates.ConstraintsCharacterize` | project.py:79-104 | the solver's constraints hold if and only if the candidate is admissible and the results, final result and distance are its trace, `results[used - 1]` and `abs(final - target)` |
| `Candidates.ResultsPrefixStable` | project.py:88-98 | computing more trace positions never changes the earlier ones |
| `Candidates.FinalIsEval` | project.py:86-101 | the gated fixed-length trace gives the same final result as the plain left-to-right evaluation of the first `used` numbers with the first `used - 1` tags |
| `Candidates.PrefixDeterminesFinal` | project.py:97-101 | two admissible candidates that agree on `used`, on `perm[..used]` and on `ops[..used - 1]` have the same final result, whatever their later entries |
| `Candidates.Pigeonhole` | project.py:79-81 | a sequence of distinct entries drawn from `[0, m)` has at most `m` entries |
| `Candidates.PermutationCoversRange` | project.py:79-81 | distinct entries in `[0, n)`, `n` of them, form a bijection: every position in `[0, n)` occurs |
| `Candidates.SwapToFront` | project.py:79-81 | moving any position `k` to the front yields a permutation of `[0, n)` |
| `Candidates.SingleNumber` | project.py:83-86 | for any position `k` there is an admissible candidate using that number alone, whose final result is `numbers[k]` |
| `Candidates.UsedOperands` | project.py:116-133 | the numbers consumed after the first, `numbers[perm[i + 1]]` read through `order_vals` (line 116) at line 133, are `used - 1` in number |
| `Search.PermutationsExact` | project.py:79-81 | the enumeration lists exactly the permutations of `[0, n)` |
| `Search.OpSequencesExact` | project.py:33-41 | the enumeration lists exactly the tag sequences of the given length |
| `Search.AllCandidatesExact` | project.py:79-83 | the enumerated space is exactly the set of admissible candidates |
| `Search.Solve` | project.py:107-111 | without numbers there is no solution; otherwise the returned candidate is admissible and its (distance, used) is lexicographically at most that of every admissible candidate |
| `Search.Extract` | project.py:115-136 | the report starts at `numbers[perm[0]]` and has exactly `used - 1` steps, i.e. `used` results; step `i` carries `ops[i]` and `numbers[perm[i + 1]]`; each step's result is its operation applied to the previous running result; final and distance are those of the candidate |
| `Search.CountingStrategy` | project.py:107-139 | reports nothing exactly when there are no numbers; otherwise it reports an optimal admissible candidate, and the reported (distance, used) is lexicographically at most that of every admissible candidate |
| `Search.OptimaShareObjective` | project.py:107-108 | all optimal candidates have the same (distance, used), so the witness chosen does not affect the reported objective |
| `Search.TargetPresentOptimum` | project.py:83-108 | if the target is one of the numbers, every optimum has distance 0 and uses exactly one number |
| `Search.SingletonBag` | project.py:79-104 | with one number, every admissible candidate has `used == 1`, `perm == [0]` and no tags, and its final result is that number |
| `Search.OptimumOverConstraintModels` | project.py:79-108 | the optimum is itself a model of the solver's constraints, and no model of those constraints has a smaller (distance, used) pair |
| `Search.SingleNumberScenario` | project.py:83-108 | numbers `[5]` and target 100: the optimum is (95, 1) with final result 5 |
| `Search.ExactMatchScenario` | project.py:83-108 | numbers `[4, 2]` and target 2: the optimum is (0, 1), using the number 2 alone |

## Left out

- Argument parsing (project.py:4-19, 141-143): command-line plumbing. Numbers and target are parameters.
- The solver machinery (project.py:33-61, 111-119): `Optimize`, the `Operation` datatype declaration, the `num_array`/`res_array` arrays with `Select`, `check` and `as_long`. These are foreign library calls. Tags are the datatype `Op`. Array reads are sequence indexing; `res_array` and `results` are the same sequence. The solver's search is the reference search `Solve`, whose postcondition is the optimality the solver promises.
- Which witness is returned among equally optimal candidates: the solver picks one and the code pins no rule. `Solve` keeps the first one in its own enumeration order, but only the objective is promised (`OptimaShareObjective`).
- Text output (project.py:120-139): the printed lines and the operation symbols, including the unreachable `"?"` fallback. `Extract` returns the printed values as data.
- Performance and search strategy: the n! x 4^(n-1) x n enumeration is exhaustive, with no pruning.
- An empty list of numbers: the source raises before printing anything (`Distinct([])` at line 79), and the argument parser never passes one. `Solve` and `CountingStrategy` return `None` for it.

/** Candidates of the countdown solver and their semantics: which
    (permutation, operation tags, used count) triples are admissible, the
    gated trace of intermediate results they produce, and the two-level
    objective (distance from the target, then numbers used). */
module Candidates {
  import opened Operations

  /** One point of the search space: an ordering of all input positions,
      one operation tag per potential transition, and how many numbers of
      the ordering are actually consumed. */
  datatype Candidate = Candidate(perm: seq<int>, ops: seq<Op>, used: int)

  /** The lexicographic objective: distance first, then numbers used. */
  datatype Objective = Objective(distance: int, used: int)

  /** Number of operation tags a candidate carries for `n` numbers:
      `n - 1`, and none at all when there are no numbers. */
  function OpCount(n: nat): nat {
    if n == 0 then 0 else n - 1
  }

  predicate Distinct(s: seq<int>) {
    forall i, j :: 0 <= i < j < |s| ==> s[i] != s[j]
  }

  predicate InRange(s: seq<int>, n: int) {
    forall i :: 0 <= i < |s| ==> 0 <= s[i] < n
  }

  /** `perm` lists `n` distinct positions of `[0, n)`. */
  predicate IsPermutation(perm: seq<int>, n: nat) {
    |perm| == n && InRange(perm, n) && Distinct(perm)
  }

  /** The admissible candidates for the input `numbers`. */
  predicate Valid(numbers: seq<int>, c: Candidate) {
    && IsPermutation(c.perm, |numbers|)
    && |c.ops| == OpCount(|numbers|)
    && 1 <= c.used <= |numbers|
  }

  /** The number consumed by transition `i`: the one at position `perm[i + 1]`. */
  function Operand(numbers: seq<int>, c: Candidate, i: int): int
    requires Valid(numbers, c) && 0 <= i < |numbers| - 1
  {
    numbers[c.perm[i + 1]]
  }

  /** The gated transition `i`: it applies its operation only while
      `i < used - 1`, and otherwise passes the previous result through. */
  function Gated(numbers: seq<int>, c: Candidate, i: int, prev: int): int
    requires Valid(numbers, c) && 0 <= i < |numbers| - 1
  {
    if i < c.used - 1 then Apply(c.ops[i], prev, Operand(numbers, c, i)) else prev
  }

  /** The first `k` intermediate results of candidate `c`. */
  function ResultsUpTo(numbers: seq<int>, c: Candidate, k: int): (res: seq<int>)
    requires Valid(numbers, c) && 1 <= k <= |numbers|
    ensures |res| == k
    decreases k
  {
    if k == 1 then [numbers[c.perm[0]]]
    else
      var prev := ResultsUpTo(numbers, c, k - 1);
      prev + [Gated(numbers, c, k - 2, prev[k - 2])]
  }

  /** All `n` intermediate results, pass-through states included. */
  function Results(numbers: seq<int>, c: Candidate): (res: seq<int>)
    requires Valid(numbers, c)
  {
    ResultsUpTo(numbers, c, |numbers|)
  }

  /** The final result: the intermediate result at position `used - 1`. */
  function Final(numbers: seq<int>, c: Candidate): int
    requires Valid(numbers, c)
  {
    Results(numbers, c)[c.used - 1]
  }

  function Abs(x: int): (a: int)
    ensures a >= 0 && (a == x || a == -x)
  {
    if x < 0 then -x else x
  }

  /** How far the final result lands from the target. */
  function Distance(numbers: seq<int>, target: int, c: Candidate): (d: int)
    requires Valid(numbers, c)
    ensures d >= 0
    ensures d == 0 <==> Final(numbers, c) == target
    ensures d == Final(numbers, c) - target || d == target - Final(numbers, c)
  {
    Abs(Final(numbers, c) - target)
  }

  function ObjectiveOf(numbers: seq<int>, target: int, c: Candidate): Objective
    requires Valid(numbers, c)
  {
    Objective(Distance(numbers, target, c), c.used)
  }

  /** Lexicographic order on objectives: distance is the primary key. */
  predicate LexLe(a: Objective, b: Objective) {
    a.distance < b.distance || (a.distance == b.distance && a.used <= b.used)
  }

  /** `c` is at least as good as every admissible candidate. */
  ghost predicate IsOptimal(numbers: seq<int>, target: int, c: Candidate)
    requires Valid(numbers, c)
  {
    forall d :: Valid(numbers, d) ==> LexLe(ObjectiveOf(numbers, target, c), ObjectiveOf(numbers, target, d))
  }

  // ---------------------------------------------------------------------
  // The solver's constraint system, stated relationally over its unknowns.

  /** One of the four alternatives of a transition holds. */
  predicate Transition(op: Op, prev: int, operand: int, next: int) {
    || (op == Add && next == Apply(Add, prev, operand))
    || (op == Sub && next == Apply(Sub, prev, operand))
    || (op == Mul && next == Apply(Mul, prev, operand))
    || (op == Div && next == Apply(Div, prev, operand))
  }

  /** Every constraint added to the solver, over the unknowns `c`, `results`,
      `final` and `distance`. The lengths are those of the lists of unknowns. */
  predicate Constraints(numbers: seq<int>, target: int, c: Candidate,
                        results: seq<int>, final: int, distance: int)
    requires |c.perm| == |numbers| && |c.ops| == OpCount(|numbers|) && |results| == |numbers|
  {
    && Distinct(c.perm)
    && InRange(c.perm, |numbers|)
    && 1 <= c.used <= |numbers|
    && results[0] == numbers[c.perm[0]]
    && (forall i :: 0 <= i < |numbers| - 1 ==>
          if i < c.used - 1 then Transition(c.ops[i], results[i], numbers[c.perm[i + 1]], results[i + 1])
          else results[i + 1] == results[i])
    && final == results[c.used - 1]
    && distance == Abs(final - target)
  }

  // ---------------------------------------------------------------------
  // The trace.

  /** Computing more results never changes the earlier ones. */
  lemma {:induction false} ResultsPrefixStable(numbers: seq<int>, c: Candidate, k: int, m: int)
    requires Valid(numbers, c) && 1 <= k <= m <= |numbers|
    ensures ResultsUpTo(numbers, c, m)[..k] == ResultsUpTo(numbers, c, k)
    decreases m
  {
    if m > k {
      ResultsPrefixStable(numbers, c, k, m - 1);
      assert ResultsUpTo(numbers, c, m)[..m - 1] == ResultsUpTo(numbers, c, m - 1);
      assert ResultsUpTo(numbers, c, m)[..k] == ResultsUpTo(numbers, c, m)[..m - 1][..k];
    }
  }

  /** The trace starts with the first number of the permutation. */
  lemma TraceStart(numbers: seq<int>, c: Candidate)
    requires Valid(numbers, c)
    ensures Results(numbers, c)[0] == numbers[c.perm[0]]
  {
    ResultsPrefixStable(numbers, c, 1, |numbers|);
    assert Results(numbers, c)[0] == Results(numbers, c)[..1][0];
  }

  /** Result `i + 1` is the gated transition `i` applied to result `i`. */
  lemma TraceStep(numbers: seq<int>, c: Candidate, i: int)
    requires Valid(numbers, c) && 0 <= i < |numbers| - 1
    ensures Results(numbers, c)[i + 1] == Gated(numbers, c, i, Results(numbers, c)[i])
  {
    ResultsPrefixStable(numbers, c, i + 2, |numbers|);
    var res := Results(numbers, c);
    assert res[..i + 2] == ResultsUpTo(numbers, c, i + 2);
    assert res[i + 1] == res[..i + 2][i + 1] && res[i] == res[..i + 2][i];
  }

  /** Before the cut-off the trace applies the candidate's operation. */
  lemma TraceApplies(numbers: seq<int>, c: Candidate, i: int)
    requires Valid(numbers, c) && 0 <= i < c.used - 1
    ensures Results(numbers, c)[i + 1] ==
            Apply(c.ops[i], Results(numbers, c)[i], numbers[c.perm[i + 1]])
  {
    TraceStep(numbers, c, i);
  }

  /** At and after the cut-off the trace passes the previous result through. */
  lemma PassThrough(numbers: seq<int>, c: Candidate, i: int)
    requires Valid(numbers, c) && c.used - 1 <= i < |numbers| - 1
    ensures Results(numbers, c)[i + 1] == Results(numbers, c)[i]
  {
    TraceStep(numbers, c, i);
  }

  /** Every result from position `used - 1` onwards is the final result. */
  lemma {:induction false} ResultsStableAfterUsed(numbers: seq<int>, c: Candidate, j: int)
    requires Valid(numbers, c) && c.used - 1 <= j < |numbers|
    ensures Results(numbers, c)[j] == Final(numbers, c)
    decreases j
  {
    if j > c.used - 1 {
      ResultsStableAfterUsed(numbers, c, j - 1);
      PassThrough(numbers, c, j - 1);
    }
  }

  /** With one number used, no operation applies: the final result is the
      first number of the permutation. */
  lemma SingleNumberFinal(numbers: seq<int>, c: Candidate)
    requires Valid(numbers, c) && c.used == 1
    ensures Final(numbers, c) == numbers[c.perm[0]]
  {
    TraceStart(numbers, c);
  }

  /** The solver's constraints hold exactly when the candidate is admissible
      and the other unknowns are its trace, final result and distance: for a
      given candidate, the constraint system has one and only one model. */
  lemma ConstraintsCharacterize(numbers: seq<int>, target: int, c: Candidate,
                                results: seq<int>, final: int, distance: int)
    requires |c.perm| == |numbers| && |c.ops| == OpCount(|numbers|) && |results| == |numbers|
    ensures Constraints(numbers, target, c, results, final, distance) <==>
            && Valid(numbers, c)
            && results == Results(numbers, c)
            && final == Final(numbers, c)
            && distance == Distance(numbers, target, c)
  {
    if Constraints(numbers, target, c, results, final, distance) {
      assert Valid(numbers, c);
      ConstrainedPrefix(numbers, target, c, results, final, distance, |numbers|);
    }
    if && Valid(numbers, c) && results == Results(numbers, c)
       && final == Final(numbers, c) && distance == Distance(numbers, target, c)
    {
      TraceStart(numbers, c);
      forall i | 0 <= i < |numbers| - 1
        ensures if i < c.used - 1 then Transition(c.ops[i], results[i], numbers[c.perm[i + 1]], results[i + 1])
                else results[i + 1] == results[i]
      {
        TraceStep(numbers, c, i);
      }
    }
  }

  lemma {:induction false} ConstrainedPrefix(numbers: seq<int>, target: int, c: Candidate,
                                             results: seq<int>, final: int, distance: int, k: int)
    requires |c.perm| == |numbers| && |c.ops| == OpCount(|numbers|) && |results| == |numbers|
    requires Constraints(numbers, target, c, results, final, distance)
    requires 1 <= k <= |numbers|
    ensures Valid(numbers, c) && results[..k] == ResultsUpTo(numbers, c, k)
    decreases k
  {
    if k > 1 {
      ConstrainedPrefix(numbers, target, c, results, final, distance, k - 1);
      var i := k - 2;
      assert if i < c.used - 1 then Transition(c.ops[i], results[i], numbers[c.perm[i + 1]], results[i + 1])
             else results[i + 1] == results[i];
      assert results[i] == ResultsUpTo(numbers, c, k - 1)[i] by {
        assert results[i] == results[..k - 1][i];
      }
      assert results[..k] == results[..k - 1] + [results[k - 1]];
    }
  }

  // ---------------------------------------------------------------------
  // The variable-length reading of a candidate.

  /** Left-to-right evaluation of `start op0 x0 op1 x1 ...`, with no gating. */
  function Eval(start: int, ops: seq<Op>, operands: seq<int>): int
    requires |ops| == |operands|
    decreases |ops|
  {
    if ops == [] then start
    else Apply(ops[|ops| - 1],
               Eval(start, ops[..|ops| - 1], operands[..|operands| - 1]),
               operands[|operands| - 1])
  }

  /** The numbers a candidate actually consumes after the first one. */
  function UsedOperands(numbers: seq<int>, c: Candidate): (xs: seq<int>)
    requires Valid(numbers, c)
    ensures |xs| == c.used - 1
  {
    seq(c.used - 1, i requires 0 <= i < c.used - 1 => numbers[c.perm[i + 1]])
  }

  /** The gated fixed-length trace computes the same final result as the
      plain left-to-right evaluation of the used prefix. */
  lemma FinalIsEval(numbers: seq<int>, c: Candidate)
    requires Valid(numbers, c)
    ensures Final(numbers, c) ==
            Eval(numbers[c.perm[0]], c.ops[..c.used - 1], UsedOperands(numbers, c))
  {
    ResultsUpToIsEval(numbers, c, c.used);
    ResultsPrefixStable(numbers, c, c.used, |numbers|);
    assert Final(numbers, c) == Results(numbers, c)[..c.used][c.used - 1];
    assert c.ops[..c.used - 1][..c.used - 1] == c.ops[..c.used - 1];
    assert UsedOperands(numbers, c)[..c.used - 1] == UsedOperands(numbers, c);
  }

  lemma {:induction false} ResultsUpToIsEval(numbers: seq<int>, c: Candidate, k: int)
    requires Valid(numbers, c) && 1 <= k <= c.used
    ensures ResultsUpTo(numbers, c, k)[k - 1] ==
            Eval(numbers[c.perm[0]], c.ops[..c.used - 1][..k - 1], UsedOperands(numbers, c)[..k - 1])
    decreases k
  {
    var start := numbers[c.perm[0]];
    var ops := c.ops[..c.used - 1][..k - 1];
    var xs := UsedOperands(numbers, c)[..k - 1];
    if k > 1 {
      ResultsUpToIsEval(numbers, c, k - 1);
      assert ops[..k - 2] == c.ops[..c.used - 1][..k - 2];
      assert xs[..k - 2] == UsedOperands(numbers, c)[..k - 2];
      assert ops[k - 2] == c.ops[k - 2];
      assert xs[k - 2] == numbers[c.perm[k - 1]];
    }
  }

  /** Only the used prefix matters: two candidates that agree on `used`, on
      the first `used` positions and on the first `used - 1` operation tags
      reach the same final result, whatever their later entries are. */
  lemma PrefixDeterminesFinal(numbers: seq<int>, c: Candidate, d: Candidate)
    requires Valid(numbers, c) && Valid(numbers, d) && c.used == d.used
    requires c.perm[..c.used] == d.perm[..d.used]
    requires c.ops[..c.used - 1] == d.ops[..d.used - 1]
    ensures Final(numbers, c) == Final(numbers, d)
  {
    assert c.perm[0] == d.perm[0] by {
      assert c.perm[0] == c.perm[..c.used][0] && d.perm[0] == d.perm[..d.used][0];
    }
    assert UsedOperands(numbers, c) == UsedOperands(numbers, d) by {
      forall i | 0 <= i < c.used - 1
        ensures UsedOperands(numbers, c)[i] == UsedOperands(numbers, d)[i]
      {
        assert c.perm[i + 1] == c.perm[..c.used][i + 1] && d.perm[i + 1] == d.perm[..d.used][i + 1];
      }
    }
    FinalIsEval(numbers, c);
    FinalIsEval(numbers, d);
  }

  // ---------------------------------------------------------------------
  // Permutations.

  /** A distinct sequence drawn from `[0, m)` has at most `m` entries. */
  lemma {:induction false} Pigeonhole(s: seq<int>, m: nat)
    requires Distinct(s) && InRange(s, m)
    ensures |s| <= m
    decreases m
  {
    if s != [] {
      assert 0 <= s[0] < m;
      if p :| 0 <= p < |s| && s[p] == m - 1 {
        var t := s[..p] + s[p + 1..];
        assert forall i :: 0 <= i < |t| ==> t[i] == if i < p then s[i] else s[i + 1];
        assert InRange(t, m - 1) by {
          forall i | 0 <= i < |t| ensures 0 <= t[i] < m - 1 {
            if i < p { assert s[i] != s[p]; } else { assert s[i + 1] != s[p]; }
          }
        }
        assert Distinct(t) by {
          forall i, j | 0 <= i < j < |t| ensures t[i] != t[j] {
            var i', j' := if i < p then i else i + 1, if j < p then j else j + 1;
            assert t[i] == s[i'] && t[j] == s[j'] && i' < j';
          }
        }
        Pigeonhole(t, m - 1);
      } else {
        assert InRange(s, m - 1) by {
          forall i | 0 <= i < |s| ensures 0 <= s[i] < m - 1 {
            assert s[i] != m - 1;
          }
        }
        Pigeonhole(s, m - 1);
      }
    }
  }

  /** A valid permutation is a bijection on `[0, n)`: every position occurs. */
  lemma PermutationCoversRange(perm: seq<int>, n: nat, j: int)
    requires IsPermutation(perm, n) && 0 <= j < n
    ensures j in perm
  {
    if j !in perm {
      var t := seq(n, i requires 0 <= i < n => if perm[i] > j then perm[i] - 1 else perm[i]);
      assert InRange(t, n - 1) by {
        forall i | 0 <= i < n ensures 0 <= t[i] < n - 1 {
          assert perm[i] != j;
        }
      }
      assert Distinct(t) by {
        forall a, b | 0 <= a < b < n ensures t[a] != t[b] {
          assert perm[a] != perm[b] && perm[a] != j && perm[b] != j;
        }
      }
      Pigeonhole(t, n - 1);
      assert false;
    }
  }

  /** The permutation that moves position `k` to the front and position 0 to `k`. */
  function SwapToFront(n: nat, k: int): (p: seq<int>)
    requires 0 <= k < n
    ensures IsPermutation(p, n) && p[0] == k
  {
    seq(n, i requires 0 <= i < n => if i == 0 then k else if i == k then 0 else i)
  }

  /** The candidate that uses only the number at position `k`. */
  function SingleNumber(numbers: seq<int>, k: int): (c: Candidate)
    requires 0 <= k < |numbers|
    ensures Valid(numbers, c) && c.used == 1 && Final(numbers, c) == numbers[k]
  {
    var c := Candidate(SwapToFront(|numbers|, k), seq(OpCount(|numbers|), _ => Add), 1);
    SingleNumberFinal(numbers, c);
    c
  }
}

/** The objective searcher of the countdown solver. The countdown solver
    hands its search to an optimising SMT solver; here an exhaustive reference search
    over every admissible candidate plays that role, and what the solver
    promises, a lexicographic minimum of (distance, used), is its
    postcondition. Also the extraction of the reported trace. */
module Search {
  import opened Operations
  import opened Candidates
  import opened Enumeration

  datatype Option<T> = None | Some(value: T)

  /** One reported step: the operation, the number it consumes, the running result after it. */
  datatype Step = Step(op: Op, operand: int, result: int)

  /** What the solver reports: the initial number, one step per used number
      after the first, the final number and its distance from the target. */
  datatype Report = Report(initial: int, steps: seq<Step>, final: int, distance: int)

  // ---------------------------------------------------------------------
  // The candidate space, enumerated.

  const AllOps: seq<Op> := [Add, Sub, Mul, Div]

  /** The positions `0, 1, ..., n - 1`. */
  function Positions(n: nat): seq<int> {
    seq(n, i requires 0 <= i < n => i)
  }

  /** The words of `ws` that are permutations of `[0, n)`, in order. */
  function KeepPermutations(ws: seq<seq<int>>, n: nat): seq<seq<int>>
    decreases |ws|
  {
    if ws == [] then []
    else (if IsPermutation(ws[0], n) then [ws[0]] else []) + KeepPermutations(ws[1..], n)
  }

  lemma {:induction false} KeepPermutationsExact(ws: seq<seq<int>>, n: nat, p: seq<int>)
    ensures p in KeepPermutations(ws, n) <==> p in ws && IsPermutation(p, n)
    decreases |ws|
  {
    if ws != [] {
      KeepPermutationsExact(ws[1..], n, p);
      assert ws == [ws[0]] + ws[1..];
    }
  }

  function Permutations(n: nat): seq<seq<int>> {
    KeepPermutations(Words(n, Positions(n)), n)
  }

  /** `Permutations(n)` lists exactly the permutations of `[0, n)`. */
  lemma PermutationsExact(n: nat, p: seq<int>)
    ensures p in Permutations(n) <==> IsPermutation(p, n)
  {
    KeepPermutationsExact(Words(n, Positions(n)), n, p);
    WordsExact(n, Positions(n), p);
    if IsPermutation(p, n) {
      assert Over(p, Positions(n)) by {
        forall i | 0 <= i < |p| ensures p[i] in Positions(n) {
          assert Positions(n)[p[i]] == p[i];
        }
      }
    }
  }

  /** Every operation tag occurs in `AllOps`, so every tag sequence is a word over it. */
  lemma OpSequencesExact(k: nat, ops: seq<Op>)
    ensures ops in Words(k, AllOps) <==> |ops| == k
  {
    WordsExact(k, AllOps, ops);
    assert Over(ops, AllOps) by {
      forall i | 0 <= i < |ops| ensures ops[i] in AllOps {
        assert ops[i] == AllOps[match ops[i] case Add => 0 case Sub => 1 case Mul => 2 case Div => 3];
      }
    }
  }

  function WithUsed(p: seq<int>, ops: seq<Op>, n: nat): seq<Candidate> {
    seq(n, u requires 0 <= u < n => Candidate(p, ops, u + 1))
  }

  function WithOps(p: seq<int>, opss: seq<seq<Op>>, n: nat): seq<Candidate> {
    Flatten(seq(|opss|, j requires 0 <= j < |opss| => WithUsed(p, opss[j], n)))
  }

  function CandidateRows(ps: seq<seq<int>>, opss: seq<seq<Op>>, n: nat): seq<seq<Candidate>> {
    seq(|ps|, i requires 0 <= i < |ps| => WithOps(ps[i], opss, n))
  }

  /** Every candidate: each permutation, each tag sequence, each used count. */
  function AllCandidates(numbers: seq<int>): seq<Candidate> {
    var n := |numbers|;
    Flatten(CandidateRows(Permutations(n), Words(OpCount(n), AllOps), n))
  }

  lemma WithOpsContains(p: seq<int>, opss: seq<seq<Op>>, n: nat, c: Candidate)
    ensures c in WithOps(p, opss, n) <==> c.perm == p && c.ops in opss && 1 <= c.used <= n
  {
    var rows := seq(|opss|, j requires 0 <= j < |opss| => WithUsed(p, opss[j], n));
    FlattenContains(rows, c);
    if c.perm == p && c.ops in opss && 1 <= c.used <= n {
      var j :| 0 <= j < |opss| && opss[j] == c.ops;
      assert rows[j][c.used - 1] == c;
    }
  }

  /** `AllCandidates` lists exactly the admissible candidates. */
  lemma AllCandidatesExact(numbers: seq<int>, c: Candidate)
    ensures c in AllCandidates(numbers) <==> Valid(numbers, c)
  {
    var n := |numbers|;
    var ps, opss := Permutations(n), Words(OpCount(n), AllOps);
    var rows := CandidateRows(ps, opss, n);
    FlattenContains(rows, c);
    PermutationsExact(n, c.perm);
    OpSequencesExact(OpCount(n), c.ops);
    WithOpsContains(c.perm, opss, n, c);
    if c in AllCandidates(numbers) {
      var i :| 0 <= i < |rows| && c in rows[i];
      WithOpsContains(ps[i], opss, n, c);
    }
    if Valid(numbers, c) {
      var i :| 0 <= i < |ps| && ps[i] == c.perm;
      assert c in rows[i];
    }
  }

  // ---------------------------------------------------------------------
  // The search.

  /** The reference search: scans every admissible candidate and keeps the
      first one with the smallest objective. Without numbers there is no
      candidate, and no solution. */
  method Solve(numbers: seq<int>, target: int) returns (best: Option<Candidate>)
    ensures best.None? <==> |numbers| == 0
    ensures best.Some? ==> Valid(numbers, best.value) && IsOptimal(numbers, target, best.value)
  {
    var candidates := AllCandidates(numbers);
    forall c | c in candidates ensures Valid(numbers, c) {
      AllCandidatesExact(numbers, c);
    }
    best := None;
    var bestObjective := Objective(0, 0);
    for i := 0 to |candidates|
      invariant best.None? <==> i == 0
      invariant best.Some? ==> best.value in candidates
      invariant best.Some? ==> bestObjective == ObjectiveOf(numbers, target, best.value)
      invariant best.Some? ==>
        forall j :: 0 <= j < i ==> LexLe(bestObjective, ObjectiveOf(numbers, target, candidates[j]))
    {
      var objective := ObjectiveOf(numbers, target, candidates[i]);
      if best.None? || !LexLe(bestObjective, objective) {
        best, bestObjective := Some(candidates[i]), objective;
      }
    }
    if |numbers| > 0 {
      AllCandidatesExact(numbers, SingleNumber(numbers, 0));
    }
    if best.Some? {
      forall d | Valid(numbers, d)
        ensures LexLe(ObjectiveOf(numbers, target, best.value), ObjectiveOf(numbers, target, d))
      {
        AllCandidatesExact(numbers, d);
        var j :| 0 <= j < |candidates| && candidates[j] == d;
      }
    }
  }

  // ---------------------------------------------------------------------
  // The reported trace.

  /** The running result before step `i` of a report. */
  function Before(rep: Report, i: int): int
    requires 0 <= i <= |rep.steps|
  {
    if i == 0 then rep.initial else rep.steps[i - 1].result
  }

  /** A report is a left-to-right evaluation: each step applies its
      operation to the running result, the final number is the last running
      result, and the distance is measured from it. */
  predicate Consistent(rep: Report, target: int) {
    && (forall i :: 0 <= i < |rep.steps| ==>
          rep.steps[i].result == Apply(rep.steps[i].op, Before(rep, i), rep.steps[i].operand))
    && rep.final == Before(rep, |rep.steps|)
    && rep.distance == Abs(rep.final - target)
  }

  /** `rep` is the report of candidate `c`: it shows exactly the `used`
      numbers of the candidate, in order, with its operation tags. */
  predicate Describes(numbers: seq<int>, target: int, c: Candidate, rep: Report)
    requires Valid(numbers, c)
  {
    && rep.initial == numbers[c.perm[0]]
    && |rep.steps| + 1 == c.used
    && (forall i :: 0 <= i < |rep.steps| ==>
          rep.steps[i].op == c.ops[i] && rep.steps[i].operand == numbers[c.perm[i + 1]])
    && Consistent(rep, target)
    && rep.final == Final(numbers, c)
    && rep.distance == Distance(numbers, target, c)
  }

  /** Reads the used prefix of a candidate's order and trace and collects
      one step per transition that applied. */
  method Extract(numbers: seq<int>, target: int, c: Candidate) returns (rep: Report)
    requires Valid(numbers, c)
    ensures Describes(numbers, target, c, rep)
  {
    var usedCount := c.used;
    var orderValues := c.perm[..usedCount];
    var resultValues := Results(numbers, c)[..usedCount];
    TraceStart(numbers, c);
    var first := resultValues[0];
    var steps: seq<Step> := [];
    for i := 0 to usedCount - 1
      invariant |steps| == i
      invariant forall k :: 0 <= k < i ==>
        steps[k] == Step(c.ops[k], numbers[orderValues[k + 1]], resultValues[k + 1])
    {
      steps := steps + [Step(c.ops[i], numbers[orderValues[i + 1]], resultValues[i + 1])];
    }
    var final := resultValues[usedCount - 1];
    rep := Report(first, steps, final, Distance(numbers, target, c));
    forall i | 0 <= i < |steps|
      ensures steps[i].result == Apply(steps[i].op, Before(rep, i), steps[i].operand)
    {
      TraceApplies(numbers, c, i);
    }
  }

  /** The whole solver: search, then report the optimum found. */
  method CountingStrategy(numbers: seq<int>, target: int) returns (rep: Option<Report>)
    ensures rep.None? <==> |numbers| == 0
    ensures rep.Some? ==>
      exists c :: Valid(numbers, c) && IsOptimal(numbers, target, c) && Describes(numbers, target, c, rep.value)
    ensures rep.Some? ==> forall d :: Valid(numbers, d) ==>
      LexLe(Objective(rep.value.distance, |rep.value.steps| + 1), ObjectiveOf(numbers, target, d))
  {
    var best := Solve(numbers, target);
    match best
    case None =>
      rep := None;
    case Some(c) =>
      var r := Extract(numbers, target, c);
      rep := Some(r);
  }

  // ---------------------------------------------------------------------
  // Properties of the optimum.

  /** All optima share one objective, so which witness is reported among
      equally good candidates does not change the reported objective. */
  lemma OptimaShareObjective(numbers: seq<int>, target: int, c: Candidate, d: Candidate)
    requires Valid(numbers, c) && IsOptimal(numbers, target, c)
    requires Valid(numbers, d) && IsOptimal(numbers, target, d)
    ensures ObjectiveOf(numbers, target, c) == ObjectiveOf(numbers, target, d)
  {
  }

  /** When the target is one of the numbers, the optimum uses that number
      alone: distance 0 with one number used. */
  lemma TargetPresentOptimum(numbers: seq<int>, target: int, best: Candidate, k: int)
    requires Valid(numbers, best) && IsOptimal(numbers, target, best)
    requires 0 <= k < |numbers| && numbers[k] == target
    ensures Distance(numbers, target, best) == 0 && best.used == 1
    ensures Final(numbers, best) == target
  {
    var single := SingleNumber(numbers, k);
    assert LexLe(ObjectiveOf(numbers, target, best), ObjectiveOf(numbers, target, single));
  }

  /** With a single number, every candidate uses it alone. */
  lemma SingletonBag(numbers: seq<int>, target: int, c: Candidate)
    requires |numbers| == 1 && Valid(numbers, c)
    ensures c.used == 1 && c.perm == [0] && c.ops == []
    ensures Final(numbers, c) == numbers[0]
    ensures Distance(numbers, target, c) == Abs(numbers[0] - target)
  {
    assert c.perm == [c.perm[0]];
    SingleNumberFinal(numbers, c);
  }
  /** The optimum over admissible candidates is also the optimum over the
      models of the solver's constraint system, the space the solver minimises
      over: the optimum is itself such a model, and no model has a smaller
      (distance, used) pair. */
  lemma OptimumOverConstraintModels(numbers: seq<int>, target: int, best: Candidate,
                                    d: Candidate, results: seq<int>, final: int, distance: int)
    requires Valid(numbers, best) && IsOptimal(numbers, target, best)
    requires |d.perm| == |numbers| && |d.ops| == OpCount(|numbers|) && |results| == |numbers|
    requires Constraints(numbers, target, d, results, final, distance)
    ensures Constraints(numbers, target, best, Results(numbers, best), Final(numbers, best),
                        Distance(numbers, target, best))
    ensures LexLe(ObjectiveOf(numbers, target, best), Objective(distance, d.used))
  {
    ConstraintsCharacterize(numbers, target, d, results, final, distance);
    ConstraintsCharacterize(numbers, target, best, Results(numbers, best), Final(numbers, best),
                            Distance(numbers, target, best));
  }

  /** A single number 5 with target 100: the answer is 5 itself, 95 away. */
  lemma SingleNumberScenario(best: Candidate)
    requires Valid([5], best) && IsOptimal([5], 100, best)
    ensures ObjectiveOf([5], 100, best) == Objective(95, 1) && Final([5], best) == 5
  {
    SingletonBag([5], 100, best);
  }

  /** Numbers 4 and 2 with target 2: the single number 2 wins over every
      two-number combination, since distance comes first. */
  lemma ExactMatchScenario(best: Candidate)
    requires Valid([4, 2], best) && IsOptimal([4, 2], 2, best)
    ensures ObjectiveOf([4, 2], 2, best) == Objective(0, 1) && best.perm[0] == 1
  {
    TargetPresentOptimum([4, 2], 2, best, 1);
    SingleNumberFinal([4, 2], best);
  }
}


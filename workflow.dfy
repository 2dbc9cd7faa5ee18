/**
 * A run of the compiled validation graph (backend/app/langgraph/workflow.py): each step
 * runs the current node on the state and follows its edge or its router. A node or a
 * router that raises ends the run as a crash. One unit of fuel is spent per node run,
 * which is how the recursion limit counts; a run that exhausts its fuel is `OutOfSteps`.
 *
 * The main theorem bounds every run by a potential of its start state: from either entry
 * point's initial state a run visits at most 28 nodes, so the limit of 50 is never hit.
 */
module Workflow {

  import opened Wrappers
  import opened Json
  import opened Lists
  import opened Constants
  import opened State
  import opened Graph
  import opened Routing
  import opened ValidationService
  import SV = Supervisor
  import FD = FetchDesign
  import ET = ExtractText
  import CM = CheckMissing
  import VA = Validation
  import H = Hitl

  /** The node functions registered with `add_node`; `None` when the node raises. */
  function RunNode(n: Node, s: ValidationState, oracle: Oracle): (r: Option<ValidationState>)
    ensures r.None? ==> n == FetchDesign || n == HitlPrompt
    ensures n == End ==> r == Some(s)
    ensures n == Revalidate ==> r == Some(VA.ValidationNode(s, oracle))
  {
    match n
    case Supervisor => Some(SV.SupervisorNode(s, oracle))
    case FetchDesign => FD.FetchDesignNode(s, oracle)
    case ExtractFromText => Some(ET.ExtractTextNode(s, oracle))
    case CheckMissing => Some(CM.CheckMissingNode(s))
    case Validate => Some(VA.ValidationNode(s, oracle))
    case HitlPrompt => H.HitlPromptNode(s)
    case AskMissing => Some(H.AskMissing(s, oracle, None, None))
    case Revalidate => Some(VA.ValidationNode(s, oracle))
    case End => Some(s)
  }

  /**
   * The edge taken after node `n` left state `s`: the plain edge, or the router's choice
   * (with the router's own write). `None` when the router raises.
   */
  function Route(n: Node, s: ValidationState): (r: Option<(Node, ValidationState)>)
    requires n != End
    ensures r.Some? ==> r.value.0 in Targets(n)
    ensures n != Supervisor && n != Validate ==> r.Some?
    ensures r.Some? && n != Validate ==> r.value.1 == s
  {
    match n
    case Supervisor =>
      (match RouteAfterSupervisor(s)
       case None => None
       case Some(m) => Some((m, s)))
    case FetchDesign => Some((CheckMissing, s))
    case ExtractFromText => Some((CheckMissing, s))
    case CheckMissing => Some((Validate, s))
    case Validate => RouteAfterValidation(s)
    case HitlPrompt => Some((RouteAfterHitlPrompt(s), s))
    case AskMissing => Some((RouteAfterAsk(s), s))
    case Revalidate => Some((End, s))
  }

  /** One step: run the node, then take its edge. END has no step. */
  function Step(n: Node, s: ValidationState, oracle: Oracle): (r: Option<(Node, ValidationState)>)
    ensures n == End ==> r.None?
    ensures r.Some? ==> r.value.0 in Targets(n)
  {
    if n == End then None
    else
      match RunNode(n, s, oracle)
      case None => None
      case Some(u) => Route(n, u)
  }

  /** How a run ends: at END with the final state and the number of node runs, with a crash, or out of fuel. */
  datatype Run = Finished(final: ValidationState, visits: nat) | Crashed(at: Node) | OutOfSteps

  /** A step relation on graph positions, `None` for a step that raises. */
  type StepFunction = (Node, ValidationState) -> Option<(Node, ValidationState)>

  /** The run of `step` from node `n` with `fuel` node runs left. */
  function Drive(step: StepFunction, n: Node, s: ValidationState, fuel: nat): (r: Run)
    ensures n == End ==> r == Finished(s, 0)
    ensures r.Finished? ==> r.visits <= fuel
    decreases fuel
  {
    if n == End then Finished(s, 0)
    else if fuel == 0 then OutOfSteps
    else
      match step(n, s)
      case None => Crashed(n)
      case Some((m, u)) =>
        match Drive(step, m, u, fuel - 1)
        case Finished(f, k) => Finished(f, k + 1)
        case other => other
  }

  /** The graph's own step for a given model. */
  function StepOf(oracle: Oracle): StepFunction
  {
    (n: Node, s: ValidationState) => Step(n, s, oracle)
  }

  /** The run of the compiled graph from node `n`. */
  function Execute(n: Node, s: ValidationState, oracle: Oracle, fuel: nat): Run
  {
    Drive(StepOf(oracle), n, s, fuel)
  }

  /** `graph.invoke(initial_state, config=RunnableConfig(recursion_limit=50))`. */
  function Invoke(s: ValidationState, oracle: Oracle): (r: Run)
    ensures r.Finished? ==> r.visits <= RecursionLimit
  {
    Execute(Entry, s, oracle, RecursionLimit)
  }

  // ----- each node's step -----

  lemma StepAtSupervisor(s: ValidationState, oracle: Oracle)
    ensures var u := SV.SupervisorNode(s, oracle);
      Step(Supervisor, s, oracle) == if RouteAfterSupervisor(u).None? then None else Some((RouteAfterSupervisor(u).value, u))
  {
  }

  lemma StepAtFetch(s: ValidationState, oracle: Oracle)
    ensures var u := FD.FetchDesignNode(s, oracle);
      Step(FetchDesign, s, oracle) == if u.None? then None else Some((CheckMissing, u.value))
  {
  }

  lemma StepAtExtract(s: ValidationState, oracle: Oracle)
    ensures Step(ExtractFromText, s, oracle) == Some((CheckMissing, ET.ExtractTextNode(s, oracle)))
  {
  }

  lemma StepAtCheck(s: ValidationState, oracle: Oracle)
    ensures Step(CheckMissing, s, oracle) == Some((Validate, CM.CheckMissingNode(s)))
  {
  }

  lemma StepAtValidate(s: ValidationState, oracle: Oracle)
    ensures Step(Validate, s, oracle) == RouteAfterValidation(VA.ValidationNode(s, oracle))
  {
  }

  lemma StepAtPrompt(s: ValidationState, oracle: Oracle)
    ensures var u := H.HitlPromptNode(s);
      Step(HitlPrompt, s, oracle) == if u.None? then None else Some((RouteAfterHitlPrompt(u.value), u.value))
  {
  }

  lemma StepAtAsk(s: ValidationState, oracle: Oracle)
    ensures var u := H.AskMissing(s, oracle, None, None);
      Step(AskMissing, s, oracle) == Some((RouteAfterAsk(u), u))
  {
  }

  lemma StepAtRevalidate(s: ValidationState, oracle: Oracle)
    ensures Step(Revalidate, s, oracle) == Some((End, VA.ValidationNode(s, oracle)))
  {
  }

  // ----- the termination potential -----

  /** `hitl_retry_count.get(f, 0)`. */
  function Count(retryCount: map<string, int>, f: string): int
  {
    if f in retryCount then retryCount[f] else 0
  }

  /** The attempts left for `f` before it is given up: at least one while it is listed. */
  function Remaining(retryCount: map<string, int>, maxRetries: int, f: string): (r: nat)
    ensures r >= 1
  {
    if maxRetries - Count(retryCount, f) < 1 then 1 else maxRetries - Count(retryCount, f)
  }

  /** The attempts left for all of `fields`. */
  function Budget(retryCount: map<string, int>, maxRetries: int, fields: seq<string>): (r: nat)
    ensures |fields| > 0 ==> r >= 1
    decreases |fields|
  {
    if |fields| == 0 then 0 else Remaining(retryCount, maxRetries, fields[0]) + Budget(retryCount, maxRetries, fields[1..])
  }

  /** One for a bulk branch still to come. */
  function Pending(s: ValidationState): nat
  {
    if |s.responses| > 0 && !s.responsesProcessed then 1 else 0
  }

  /** What the collection loop can still spend. */
  function CollectionPotential(s: ValidationState): nat
  {
    Pending(s) + Budget(s.retryCount, s.maxRetries, s.missing)
  }

  /** What the front of the graph can still spend: the collection loop over every required field. */
  function FrontPotential(s: ValidationState): nat
  {
    Pending(s) + Budget(s.retryCount, s.maxRetries, RequiredAttributes)
  }

  /** An upper bound on the node runs left from node `n` in state `s`. */
  function Potential(n: Node, s: ValidationState): (r: nat)
    ensures n != End ==> r >= 1
  {
    match n
    case Supervisor => FrontPotential(s) + 6
    case FetchDesign => FrontPotential(s) + 5
    case ExtractFromText => FrontPotential(s) + 5
    case CheckMissing => FrontPotential(s) + 4
    case Validate => CollectionPotential(s) + 3
    case HitlPrompt => CollectionPotential(s) + 2
    case AskMissing => CollectionPotential(s) + (if |s.missing| == 0 then 2 else 1)
    case Revalidate => 1
    case End => 0
  }

  /** What a node may assume of its state: from the validation on the missing list has no duplicates. */
  predicate Invariant(n: Node, s: ValidationState)
  {
    n in {Validate, HitlPrompt, AskMissing, Revalidate} ==> NoDup(s.missing)
  }

  /** The keys the potential reads are the same. */
  predicate SameCounts(s: ValidationState, u: ValidationState)
  {
    && u.retryCount == s.retryCount && u.maxRetries == s.maxRetries
    && u.responses == s.responses && u.responsesProcessed == s.responsesProcessed
  }

  /** Fields whose count is unchanged keep their budget. */
  lemma {:induction false} BudgetOtherField(c1: map<string, int>, c2: map<string, int>, max: int, f: string, fields: seq<string>)
    requires forall g :: g != f ==> Count(c1, g) == Count(c2, g)
    requires f !in fields
    ensures Budget(c2, max, fields) == Budget(c1, max, fields)
    decreases |fields|
  {
    if |fields| > 0 {
      BudgetOtherField(c1, c2, max, f, fields[1..]);
    }
  }

  /** Dropping fields never raises the budget. */
  lemma {:induction false} BudgetSubsequence(c: map<string, int>, max: int, xs: seq<string>, ys: seq<string>)
    requires SubsequenceOf(xs, ys)
    ensures Budget(c, max, xs) <= Budget(c, max, ys)
    decreases |ys|
  {
    if |xs| > 0 && |ys| > 0 {
      if xs[0] == ys[0] {
        BudgetSubsequence(c, max, xs[1..], ys[1..]);
      } else {
        BudgetSubsequence(c, max, xs, ys[1..]);
      }
    } else if |ys| > 0 {
      BudgetSubsequence(c, max, xs, ys[1..]);
    }
  }

  /** With no counts yet and three retries, every field has three attempts. */
  lemma {:induction false} BudgetFresh(fields: seq<string>)
    ensures Budget(map[], MaxRetries, fields) == 3 * |fields|
    decreases |fields|
  {
    if |fields| > 0 {
      BudgetFresh(fields[1..]);
    }
  }

  /** The bulk pass: the pending unit is spent, and the list only loses fields. */
  lemma BulkStepDecreases(s: ValidationState, oracle: Oracle)
    requires H.TakesBulkBranch(s) && NoDup(s.missing)
    ensures var u := H.AskMissing(s, oracle, None, None);
      CollectionPotential(u) < CollectionPotential(s) && NoDup(u.missing)
  {
    var u := H.BulkCollect(s, oracle);
    H.BulkFacts(s, oracle);
    H.BulkBranchEffect(s, oracle, None, None);
    assert u.retryCount == s.retryCount && u.maxRetries == s.maxRetries;
    assert Pending(u) == 0 && Pending(s) == 1;
    BudgetSubsequence(s.retryCount, s.maxRetries, u.missing, s.missing);
  }

  /** An unanswered attempt: the first field has one attempt fewer, or is dropped. */
  lemma AttemptStepDecreases(s: ValidationState, oracle: Oracle)
    requires |s.missing| > 0 && !H.TakesBulkBranch(s) && NoDup(s.missing)
    ensures var u := H.AskMissing(s, oracle, None, None);
      CollectionPotential(u) < CollectionPotential(s) && NoDup(u.missing)
  {
    var u := H.AskMissing(s, oracle, None, None);
    var f := s.missing[0];
    H.NoAnswerAttempt(s, oracle);
    assert u == H.FailedAttempt(s, f);
    assert Pending(u) == Pending(s);
    assert f !in s.missing[1..] by {
      forall j | 1 <= j < |s.missing| ensures s.missing[j] != f { }
    }
    BudgetOtherField(s.retryCount, u.retryCount, s.maxRetries, f, s.missing[1..]);
    if H.RetryCount(s, f) + 1 < s.maxRetries {
      assert Remaining(u.retryCount, s.maxRetries, f) + 1 == Remaining(s.retryCount, s.maxRetries, f);
    } else {
      assert NoDup(s.missing[1..]) by {
        forall i, j | 0 <= i < j < |s.missing[1..]| ensures s.missing[1..][i] != s.missing[1..][j] {
          assert s.missing[1..][i] == s.missing[i + 1];
        }
      }
    }
  }

  /** A visit of the collection node with fields missing lowers what the loop can still spend. */
  lemma CollectionStepDecreases(s: ValidationState, oracle: Oracle)
    requires |s.missing| > 0 && NoDup(s.missing)
    ensures var u := H.AskMissing(s, oracle, None, None);
      CollectionPotential(u) < CollectionPotential(s) && NoDup(u.missing)
  {
    if H.TakesBulkBranch(s) {
      BulkStepDecreases(s, oracle);
    } else {
      AttemptStepDecreases(s, oracle);
    }
  }

  // ----- one step lowers the potential and keeps the invariant -----

  lemma SupervisorKeepsCounts(s: ValidationState, oracle: Oracle)
    ensures var u := SV.SupervisorNode(s, oracle); SameCounts(s, u) && u.missing == s.missing
  {
  }

  lemma FetchKeepsCounts(s: ValidationState, oracle: Oracle)
    requires FD.FetchDesignNode(s, oracle).Some?
    ensures var u := FD.FetchDesignNode(s, oracle).value; SameCounts(s, u) && u.missing == s.missing
  {
  }

  lemma ExtractKeepsCounts(s: ValidationState, oracle: Oracle)
    ensures var u := ET.ExtractTextNode(s, oracle); SameCounts(s, u) && u.missing == s.missing
  {
  }

  lemma CheckKeepsCounts(s: ValidationState)
    ensures SameCounts(s, CM.CheckMissingNode(s))
  {
  }

  lemma ValidationKeepsCounts(s: ValidationState, oracle: Oracle)
    ensures var u := VA.ValidationNode(s, oracle); SameCounts(s, u) && u.missing == s.missing
  {
  }

  lemma PromptKeepsCounts(s: ValidationState)
    requires H.HitlPromptNode(s).Some?
    ensures var u := H.HitlPromptNode(s).value; SameCounts(s, u) && u.missing == s.missing
  {
  }

  lemma ValidationRouteKeepsCounts(s: ValidationState)
    requires RouteAfterValidation(s).Some?
    ensures var u := RouteAfterValidation(s).value.1; SameCounts(s, u) && u.missing == s.missing
  {
  }

  /** The front of the graph: a node that only writes keys the potential does not read lowers it by one. */
  lemma FrontDecreases(n: Node, s: ValidationState, m: Node, u: ValidationState)
    requires n in {Supervisor, FetchDesign, ExtractFromText} && m in Targets(n) && SameCounts(s, u)
    ensures Potential(m, u) < Potential(n, s) && Invariant(m, u)
  {
    assert FrontPotential(u) == FrontPotential(s);
    assert m in {End, FetchDesign, ExtractFromText, CheckMissing};
    if m == End {
      assert Potential(m, u) == 0;
    } else if m == CheckMissing {
      assert Potential(m, u) == FrontPotential(s) + 4;
    } else {
      assert n == Supervisor && Potential(m, u) == FrontPotential(s) + 5;
    }
  }

  lemma SupervisorStepDecreases(s: ValidationState, oracle: Oracle)
    requires Step(Supervisor, s, oracle).Some?
    ensures var (m, u) := Step(Supervisor, s, oracle).value;
      Potential(m, u) < Potential(Supervisor, s) && Invariant(m, u)
  {
    StepAtSupervisor(s, oracle);
    SupervisorKeepsCounts(s, oracle);
    var (m, u) := Step(Supervisor, s, oracle).value;
    FrontDecreases(Supervisor, s, m, u);
  }

  lemma FetchStepDecreases(s: ValidationState, oracle: Oracle)
    requires Step(FetchDesign, s, oracle).Some?
    ensures var (m, u) := Step(FetchDesign, s, oracle).value;
      Potential(m, u) < Potential(FetchDesign, s) && Invariant(m, u)
  {
    StepAtFetch(s, oracle);
    FetchKeepsCounts(s, oracle);
    var (m, u) := Step(FetchDesign, s, oracle).value;
    FrontDecreases(FetchDesign, s, m, u);
  }

  lemma ExtractStepDecreases(s: ValidationState, oracle: Oracle)
    requires Step(ExtractFromText, s, oracle).Some?
    ensures var (m, u) := Step(ExtractFromText, s, oracle).value;
      Potential(m, u) < Potential(ExtractFromText, s) && Invariant(m, u)
  {
    StepAtExtract(s, oracle);
    ExtractKeepsCounts(s, oracle);
    var (m, u) := Step(ExtractFromText, s, oracle).value;
    FrontDecreases(ExtractFromText, s, m, u);
  }

  /** The check only writes the missing list, a subsequence of the required fields. */
  lemma CheckDecreases(s: ValidationState)
    ensures var u := CM.CheckMissingNode(s);
      Potential(Validate, u) < Potential(CheckMissing, s) && Invariant(Validate, u)
  {
    var u := CM.CheckMissingNode(s);
    CheckKeepsCounts(s);
    BudgetSubsequence(s.retryCount, s.maxRetries, u.missing, RequiredAttributes);
  }

  lemma CheckStepDecreases(s: ValidationState, oracle: Oracle)
    requires Step(CheckMissing, s, oracle).Some?
    ensures var (m, u) := Step(CheckMissing, s, oracle).value;
      Potential(m, u) < Potential(CheckMissing, s) && Invariant(m, u)
  {
    StepAtCheck(s, oracle);
    CheckDecreases(s);
  }

  /** The validation and its router leave the collection potential as it is. */
  lemma ValidateDecreases(s: ValidationState, oracle: Oracle)
    requires Invariant(Validate, s)
    requires RouteAfterValidation(VA.ValidationNode(s, oracle)).Some?
    ensures var (m, u) := RouteAfterValidation(VA.ValidationNode(s, oracle)).value;
      Potential(m, u) < Potential(Validate, s) && Invariant(m, u)
  {
    var v := VA.ValidationNode(s, oracle);
    ValidationKeepsCounts(s, oracle);
    RouteDecreases(s, v);
  }

  /** The router after the validation keeps the collection potential, from a state with the same counts. */
  lemma RouteDecreases(s: ValidationState, v: ValidationState)
    requires Invariant(Validate, s) && SameCounts(s, v) && v.missing == s.missing
    requires RouteAfterValidation(v).Some?
    ensures var (m, u) := RouteAfterValidation(v).value;
      Potential(m, u) < Potential(Validate, s) && Invariant(m, u)
  {
    ValidationRouteKeepsCounts(v);
    var (m, u) := RouteAfterValidation(v).value;
    assert CollectionPotential(u) == CollectionPotential(s);
  }

  lemma ValidateStepDecreases(s: ValidationState, oracle: Oracle)
    requires Invariant(Validate, s)
    requires Step(Validate, s, oracle).Some?
    ensures var (m, u) := Step(Validate, s, oracle).value;
      Potential(m, u) < Potential(Validate, s) && Invariant(m, u)
  {
    StepAtValidate(s, oracle);
    ValidateDecreases(s, oracle);
  }

  /** So does the prompt node. */
  lemma PromptDecreases(s: ValidationState)
    requires Invariant(HitlPrompt, s)
    requires H.HitlPromptNode(s).Some?
    ensures var u := H.HitlPromptNode(s).value;
      Potential(RouteAfterHitlPrompt(u), u) < Potential(HitlPrompt, s) && Invariant(RouteAfterHitlPrompt(u), u)
  {
    PromptKeepsCounts(s);
  }

  lemma PromptStepDecreases(s: ValidationState, oracle: Oracle)
    requires Invariant(HitlPrompt, s)
    requires Step(HitlPrompt, s, oracle).Some?
    ensures var (m, u) := Step(HitlPrompt, s, oracle).value;
      Potential(m, u) < Potential(HitlPrompt, s) && Invariant(m, u)
  {
    StepAtPrompt(s, oracle);
    PromptDecreases(s);
  }

  /** The collection node: the loop potential goes down, or the list is already empty. */
  lemma AskDecreases(s: ValidationState, oracle: Oracle)
    requires Invariant(AskMissing, s)
    ensures var u := H.AskMissing(s, oracle, None, None);
      Potential(RouteAfterAsk(u), u) < Potential(AskMissing, s) && Invariant(RouteAfterAsk(u), u)
  {
    if |s.missing| > 0 {
      CollectionStepDecreases(s, oracle);
    }
  }

  lemma AskStepDecreases(s: ValidationState, oracle: Oracle)
    requires Invariant(AskMissing, s)
    ensures var (m, u) := Step(AskMissing, s, oracle).value;
      Potential(m, u) < Potential(AskMissing, s) && Invariant(m, u)
  {
    StepAtAsk(s, oracle);
    AskDecreases(s, oracle);
  }

  /** Every step that does not raise lowers the potential and keeps the invariant. */
  lemma StepDecreases(n: Node, s: ValidationState, oracle: Oracle)
    requires Invariant(n, s)
    requires Step(n, s, oracle).Some?
    ensures var (m, u) := Step(n, s, oracle).value;
      Potential(m, u) < Potential(n, s) && Invariant(m, u)
  {
    match n
    case Supervisor => SupervisorStepDecreases(s, oracle);
    case FetchDesign => FetchStepDecreases(s, oracle);
    case ExtractFromText => ExtractStepDecreases(s, oracle);
    case CheckMissing => CheckStepDecreases(s, oracle);
    case Validate => ValidateStepDecreases(s, oracle);
    case HitlPrompt => PromptStepDecreases(s, oracle);
    case AskMissing => AskStepDecreases(s, oracle);
    case Revalidate => StepAtRevalidate(s, oracle);
    case End =>
  }

  // ----- runs of any step relation -----

  /**
   * Outside END, `pot` is positive wherever `inv` holds, and every step that does not
   * raise lowers `pot` and keeps `inv`.
   */
  ghost predicate Lowers(step: StepFunction, pot: (Node, ValidationState) -> nat, inv: (Node, ValidationState) -> bool)
  {
    forall n, s :: n != End && inv(n, s) ==>
      && 1 <= pot(n, s)
      && (step(n, s).Some? ==>
            pot(step(n, s).value.0, step(n, s).value.1) < pot(n, s) && inv(step(n, s).value.0, step(n, s).value.1))
  }

  /** Every step that does not raise keeps `p`. */
  ghost predicate Keeps(step: StepFunction, p: ValidationState -> bool)
  {
    forall n, s :: n != End && p(s) && step(n, s).Some? ==> p(step(n, s).value.1)
  }

  /** With fuel for the potential, a run of a lowering step never runs out, and it runs at most that many nodes. */
  lemma {:induction false} DriveWithinPotential(step: StepFunction, pot: (Node, ValidationState) -> nat,
                                                inv: (Node, ValidationState) -> bool, n: Node, s: ValidationState, fuel: nat)
    requires Lowers(step, pot, inv) && inv(n, s) && pot(n, s) <= fuel
    ensures !Drive(step, n, s, fuel).OutOfSteps?
    ensures Drive(step, n, s, fuel).Finished? ==> Drive(step, n, s, fuel).visits <= pot(n, s)
    decreases fuel
  {
    if n != End && step(n, s).Some? {
      var (m, u) := step(n, s).value;
      DriveWithinPotential(step, pot, inv, m, u, fuel - 1);
      var rest := Drive(step, m, u, fuel - 1);
      assert Drive(step, n, s, fuel) == if rest.Finished? then Finished(rest.final, rest.visits + 1) else rest;
    }
  }

  /** A property every step keeps holds at the end of every finished run. */
  lemma {:induction false} DriveKeeps(step: StepFunction, p: ValidationState -> bool, n: Node, s: ValidationState, fuel: nat)
    requires Keeps(step, p) && p(s)
    requires Drive(step, n, s, fuel).Finished?
    ensures p(Drive(step, n, s, fuel).final)
    decreases fuel
  {
    if n != End {
      var (m, u) := step(n, s).value;
      DriveKeeps(step, p, m, u, fuel - 1);
    }
  }

  // ----- runs of the graph -----

  lemma GraphLowers(oracle: Oracle)
    ensures Lowers(StepOf(oracle), Potential, Invariant)
  {
    forall n, s | n != End && Invariant(n, s) && StepOf(oracle)(n, s).Some?
      ensures var (m, u) := StepOf(oracle)(n, s).value; Potential(m, u) < Potential(n, s) && Invariant(m, u)
    {
      StepDecreases(n, s, oracle);
    }
  }

  /** With fuel for the potential, a run never runs out of steps, and it runs at most that many nodes. */
  lemma RunWithinPotential(n: Node, s: ValidationState, oracle: Oracle, fuel: nat)
    requires Invariant(n, s) && Potential(n, s) <= fuel
    ensures !Execute(n, s, oracle, fuel).OutOfSteps?
    ensures Execute(n, s, oracle, fuel).Finished? ==> Execute(n, s, oracle, fuel).visits <= Potential(n, s)
  {
    GraphLowers(oracle);
    DriveWithinPotential(StepOf(oracle), Potential, Invariant, n, s, fuel);
  }

  /** A run from a fresh state has potential at most 28: six fixed nodes, one bulk pass, three attempts per required field. */
  lemma FreshPotential(s: ValidationState)
    requires FreshRun(s)
    ensures Potential(Entry, s) <= 28
  {
    BudgetFresh(RequiredAttributes);
    RequiredAttributesDistinct();
  }

  /** Neither entry point's run hits the recursion limit: each ends or crashes within 28 node runs. */
  lemma InvokeWithinLimit(s: ValidationState, oracle: Oracle)
    requires FreshRun(s)
    ensures !Invoke(s, oracle).OutOfSteps?
    ensures Invoke(s, oracle).Finished? ==> Invoke(s, oracle).visits <= 28
  {
    FreshPotential(s);
    RunWithinPotential(Entry, s, oracle, RecursionLimit);
  }

  // ----- what a run keeps -----

  /** Without preloaded answers no node writes the log, and nothing writes the answers. */
  lemma StepKeepsLog(n: Node, s: ValidationState, oracle: Oracle)
    requires |s.responses| == 0
    requires Step(n, s, oracle).Some?
    ensures var u := Step(n, s, oracle).value.1; u.history == s.history && u.responses == s.responses
  {
    match n
    case Supervisor => StepAtSupervisor(s, oracle); SupervisorKeepsCounts(s, oracle);
    case FetchDesign => StepAtFetch(s, oracle); FetchKeepsCounts(s, oracle);
    case ExtractFromText => StepAtExtract(s, oracle); ExtractKeepsCounts(s, oracle);
    case CheckMissing => StepAtCheck(s, oracle); CheckKeepsCounts(s);
    case Validate =>
      StepAtValidate(s, oracle);
      ValidationKeepsCounts(s, oracle);
      ValidationRouteKeepsCounts(VA.ValidationNode(s, oracle));
    case HitlPrompt => StepAtPrompt(s, oracle); PromptKeepsCounts(s);
    case AskMissing =>
      StepAtAsk(s, oracle);
      if |s.missing| > 0 {
        H.FailedAttemptFacts(s, s.missing[0]);
      }
    case Revalidate => StepAtRevalidate(s, oracle); ValidationKeepsCounts(s, oracle);
    case End =>
  }

  /** A run without preloaded answers ends with the log it started with. */
  lemma NoAnswersKeepLog(n: Node, s: ValidationState, oracle: Oracle, fuel: nat)
    requires |s.responses| == 0
    requires Execute(n, s, oracle, fuel).Finished?
    ensures Execute(n, s, oracle, fuel).final.history == s.history
    ensures Execute(n, s, oracle, fuel).final.responses == []
  {
    var h := s.history;
    var p := (u: ValidationState) => u.history == h && u.responses == [];
    forall m, u | m != End && p(u) && StepOf(oracle)(m, u).Some?
      ensures p(StepOf(oracle)(m, u).value.1)
    {
      StepKeepsLog(m, u, oracle);
    }
    DriveKeeps(StepOf(oracle), p, n, s, fuel);
  }

  /** The stored validation is untouched or a list of dicts, which the API can turn into items. */
  predicate ValidationShape(s: ValidationState)
  {
    s.validation == Null || EntriesOf(s.validation).Some?
  }

  lemma StepKeepsShape(n: Node, s: ValidationState, oracle: Oracle)
    requires ValidationShape(s)
    requires Step(n, s, oracle).Some?
    ensures ValidationShape(Step(n, s, oracle).value.1)
  {
    match n
    case Supervisor => StepAtSupervisor(s, oracle); SupervisorKeepsCounts(s, oracle);
    case FetchDesign => StepAtFetch(s, oracle); FetchKeepsCounts(s, oracle);
    case ExtractFromText => StepAtExtract(s, oracle); ExtractKeepsCounts(s, oracle);
    case CheckMissing => StepAtCheck(s, oracle); CheckKeepsCounts(s);
    case Validate => StepAtValidate(s, oracle); ValidationRouteKeepsCounts(VA.ValidationNode(s, oracle));
    case HitlPrompt => StepAtPrompt(s, oracle); PromptKeepsCounts(s);
    case AskMissing => StepAtAsk(s, oracle); H.AskMissingFacts(s, oracle, None, None);
    case Revalidate => StepAtRevalidate(s, oracle);
    case End =>
  }

  /**
   * Whatever the model answers, a finished run leaves `validation` either as the initial
   * `None` (the supervisor ended the run) or as a list of dicts.
   */
  lemma FinishedValidationShape(n: Node, s: ValidationState, oracle: Oracle, fuel: nat)
    requires ValidationShape(s)
    requires Execute(n, s, oracle, fuel).Finished?
    ensures ValidationShape(Execute(n, s, oracle, fuel).final)
  {
    var p := (u: ValidationState) => ValidationShape(u);
    forall m, u | m != End && p(u) && StepOf(oracle)(m, u).Some?
      ensures p(StepOf(oracle)(m, u).value.1)
    {
      StepKeepsShape(m, u, oracle);
    }
    DriveKeeps(StepOf(oracle), p, n, s, fuel);
  }

  /**
   * Once the collection loop is entered, a finished run ends with nothing missing: every
   * field is answered or given up before the revalidation.
   */
  lemma {:induction false} CollectionEndsComplete(s: ValidationState, oracle: Oracle, fuel: nat)
    requires Execute(AskMissing, s, oracle, fuel).Finished?
    ensures Execute(AskMissing, s, oracle, fuel).final.missing == []
    decreases fuel
  {
    StepAtAsk(s, oracle);
    var u := H.AskMissing(s, oracle, None, None);
    assert StepOf(oracle)(AskMissing, s) == Some((RouteAfterAsk(u), u));
    if RouteAfterAsk(u) == AskMissing {
      CollectionEndsComplete(u, oracle, fuel - 1);
    } else {
      StepAtRevalidate(u, oracle);
      ValidationKeepsCounts(u, oracle);
      var v := VA.ValidationNode(u, oracle);
      assert StepOf(oracle)(Revalidate, u) == Some((End, v));
      assert Execute(Revalidate, u, oracle, fuel - 1) == Finished(v, 1);
    }
  }

  // ----- the two accounts of DESIGN-002 -----

  /** The first call for a request naming DESIGN-002: the table record leaves two fields missing. */
  lemma Design002FirstCall(userInput: string, hitlMode: bool, oracle: Oracle)
    requires FD.RegexDesignId(userInput) == Some("DESIGN-002")
    requires SV.SupervisorRoute(userInput, oracle) == SV.FetchDesignRoute
    ensures var s := RunValidationState(userInput, hitlMode);
      var (m, u) := Step(Supervisor, s, oracle).value;
      && m == FetchDesign
      && FD.FetchDesignNode(u, oracle).Some?
      && FD.FetchDesignNode(u, oracle).value.designId == Some("DESIGN-002")
      && CM.CheckMissingNode(FD.FetchDesignNode(u, oracle).value).missing == ["conductor_class", "insulation_thickness"]
  {
    var s := RunValidationState(userInput, hitlMode);
    var u := SV.SupervisorNode(s, oracle);
    StepAtSupervisor(s, oracle);
    FD.FetchHit(u, oracle);
    CM.Design002Missing();
  }

  /** An attribute with an answer that parses to a non-empty value is present after the merge. */
  lemma AnsweredPresent(attrs: Object, responses: Responses, oracle: Oracle, f: string, i: nat)
    requires i < |responses| && responses[i].field == f
    requires H.ParseSingleAttribute(f, responses[i].text, oracle).Some?
    requires H.ParseSingleAttribute(f, responses[i].text, oracle).value != Str("")
    ensures !CM.IsMissing(H.Merged(attrs, responses, oracle), f)
  {
    H.MergedAt(attrs, responses, oracle, f);
  }

  /** An attribute no answer names keeps its value through the merge. */
  lemma UnansweredKept(attrs: Object, responses: Responses, oracle: Oracle, f: string)
    requires forall i :: 0 <= i < |responses| ==> responses[i].field != f
    ensures CM.IsMissing(H.Merged(attrs, responses, oracle), f) == CM.IsMissing(attrs, f)
  {
    H.MergedAt(attrs, responses, oracle, f);
  }

  /** A list with no members is empty. */
  lemma NoMembers(xs: seq<string>)
    ensures (forall x :: x !in xs) ==> xs == []
  {
    if |xs| > 0 {
      assert xs[0] in xs;
    }
  }

  /** With every required attribute present the check finds nothing missing. */
  lemma NothingMissing(s: ValidationState)
    requires forall f :: f in RequiredAttributes ==> !CM.IsMissing(s.attributes, f)
    ensures CM.CheckMissingNode(s).missing == []
  {
    NoMembers(CM.CheckMissingNode(s).missing);
  }

  /** Answers for exactly the two absent fields, both parsing to a non-empty value, complete the DESIGN-002 record. */
  lemma Design002Completed(responses: Responses, oracle: Oracle)
    requires forall i :: 0 <= i < |responses| ==> responses[i].field in ["conductor_class", "insulation_thickness"]
    requires forall f :: f in ["conductor_class", "insulation_thickness"] ==>
      exists i :: 0 <= i < |responses| && responses[i].field == f
        && H.ParseSingleAttribute(f, responses[i].text, oracle).Some?
        && H.ParseSingleAttribute(f, responses[i].text, oracle).value != Str("")
    ensures forall f :: f in RequiredAttributes ==> !CM.IsMissing(H.Merged(Design002, responses, oracle), f)
  {
    forall f | f in RequiredAttributes
      ensures !CM.IsMissing(H.Merged(Design002, responses, oracle), f)
    {
      if f in ["conductor_class", "insulation_thickness"] {
        var i :| 0 <= i < |responses| && responses[i].field == f
          && H.ParseSingleAttribute(f, responses[i].text, oracle).Some?
          && H.ParseSingleAttribute(f, responses[i].text, oracle).value != Str("");
        AnsweredPresent(Design002, responses, oracle, f, i);
      } else {
        UnansweredKept(Design002, responses, oracle, f);
      }
    }
  }

  /**
   * The resumed call with answers for the two missing fields: when both parse to a
   * non-empty value they are merged over the record already in the fetch node, so the
   * check finds nothing missing.
   */
  lemma Design002Resumed(userInput: string, responses: Responses, oracle: Oracle)
    requires FD.RegexDesignId(userInput) == Some("DESIGN-002")
    requires SV.SupervisorRoute(userInput, oracle) == SV.FetchDesignRoute
    requires forall i :: 0 <= i < |responses| ==> responses[i].field in ["conductor_class", "insulation_thickness"]
    requires forall f :: f in ["conductor_class", "insulation_thickness"] ==>
      exists i :: 0 <= i < |responses| && responses[i].field == f
        && H.ParseSingleAttribute(f, responses[i].text, oracle).Some?
        && H.ParseSingleAttribute(f, responses[i].text, oracle).value != Str("")
    ensures var s := RunWithResponsesState(userInput, responses);
      var u := SV.SupervisorNode(s, oracle);
      && FD.FetchDesignNode(u, oracle).Some?
      && CM.CheckMissingNode(FD.FetchDesignNode(u, oracle).value).missing == []
  {
    var s := RunWithResponsesState(userInput, responses);
    var u := SV.SupervisorNode(s, oracle);
    FD.FetchHit(u, oracle);
    Design002Completed(responses, oracle);
    NothingMissing(FD.FetchDesignNode(u, oracle).value);
  }
}

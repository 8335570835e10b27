/**
 * The ownership chain: a sequence of checks run one after another that
 * stops at the first failure. Each step is the repository call made and
 * the outcome that call has on the current tables; the chain's result is
 * the first failure, and the calls made are the steps up to and including
 * it. No step after a failure runs.
 */
module Chain {
  import opened Wrappers
  import opened Errors
  import opened CallLog

  datatype Step = Step(call: Call, outcome: Outcome<DomainError>)

  /** The outcome of running the steps in order. */
  function Run(steps: seq<Step>): Outcome<DomainError> {
    if steps == [] then Pass
    else if steps[0].outcome.Fail? then steps[0].outcome
    else Run(steps[1..])
  }

  /** The calls made while running the steps in order. */
  function CallsMade(steps: seq<Step>): seq<Call> {
    if steps == [] then []
    else if steps[0].outcome.Fail? then [steps[0].call]
    else [steps[0].call] + CallsMade(steps[1..])
  }

  /** The calls of all the steps. */
  function AllCalls(steps: seq<Step>): seq<Call> {
    if steps == [] then [] else [steps[0].call] + AllCalls(steps[1..])
  }

  /** The index of the first failing step, if any. */
  predicate FirstFailure(steps: seq<Step>, k: int) {
    0 <= k < |steps| && steps[k].outcome.Fail? && forall j | 0 <= j < k :: steps[j].outcome.Pass?
  }

  /** The chain passes exactly when every step passes, and then every call was made. */
  lemma {:induction false} RunPasses(steps: seq<Step>)
    ensures Run(steps).Pass? <==> forall j | 0 <= j < |steps| :: steps[j].outcome.Pass?
    ensures Run(steps).Pass? ==> CallsMade(steps) == AllCalls(steps)
  {
    if steps != [] {
      RunPasses(steps[1..]);
      if steps[0].outcome.Pass? {
        forall j | 0 <= j < |steps| && (forall i | 0 <= i < |steps| - 1 :: steps[1..][i].outcome.Pass?)
          ensures steps[j].outcome.Pass?
        {
          if j > 0 { assert steps[j] == steps[1..][j - 1]; }
        }
      }
    }
  }

  /** A failing chain reports its first failure, and the calls stop right there. */
  lemma {:induction false} RunStopsAtFirstFailure(steps: seq<Step>, k: int)
    requires FirstFailure(steps, k)
    ensures Run(steps) == steps[k].outcome
    ensures CallsMade(steps) == AllCalls(steps[..k + 1])
  {
    if k > 0 {
      assert FirstFailure(steps[1..], k - 1) by {
        forall j | 0 <= j < k - 1 ensures steps[1..][j].outcome.Pass? {
          assert steps[1..][j] == steps[j + 1];
        }
      }
      RunStopsAtFirstFailure(steps[1..], k - 1);
      assert steps[1..][..k] == steps[..k + 1][1..];
    } else {
      assert steps[..1] == [steps[0]];
    }
  }

  /** Steps that pass hand the chain on to the rest, with their calls made. */
  lemma {:induction false} PassedPrefix(steps: seq<Step>, k: nat)
    requires k <= |steps| && forall j | 0 <= j < k :: steps[j].outcome.Pass?
    ensures Run(steps) == Run(steps[k..])
    ensures CallsMade(steps) == AllCalls(steps[..k]) + CallsMade(steps[k..])
  {
    if k > 0 {
      PassedPrefix(steps[1..], k - 1);
      assert steps[1..][k - 1..] == steps[k..];
      assert steps[1..][..k - 1] == steps[..k][1..];
    }
  }

  /** The steps' calls, one per step, in order. */
  lemma {:induction false} AllCallsAt(steps: seq<Step>)
    ensures |AllCalls(steps)| == |steps|
    ensures forall j | 0 <= j < |steps| :: AllCalls(steps)[j] == steps[j].call
  {
    if steps != [] {
      AllCallsAt(steps[1..]);
      forall j | 0 <= j < |steps| ensures AllCalls(steps)[j] == steps[j].call {
        if j > 0 { assert steps[j] == steps[1..][j - 1]; }
      }
    }
  }

  /** The chain only reads: none of its calls is a write. */
  lemma {:induction false} CallsMadeAreReads(steps: seq<Step>)
    requires forall j | 0 <= j < |steps| :: !steps[j].call.IsWrite()
    ensures Writes(CallsMade(steps)) == 0
  {
    if steps != [] {
      if steps[0].outcome.Pass? {
        CallsMadeAreReads(steps[1..]);
        WritesAppend([steps[0].call], CallsMade(steps[1..]));
      }
    }
  }

  /** The calls of a chain that guards a write: the checks made, then the write if they all passed. */
  function Guarded(steps: seq<Step>, write: seq<Call>): seq<Call> {
    CallsMade(steps) + (if Run(steps).Pass? then write else [])
  }

  /** A chain of reads guarding a write makes the write's changes when it passes and none otherwise. */
  lemma GuardedWrites(steps: seq<Step>, write: seq<Call>)
    requires forall j | 0 <= j < |steps| :: !steps[j].call.IsWrite()
    ensures Writes(Guarded(steps, write)) == if Run(steps).Pass? then Writes(write) else 0
  {
    CallsMadeAreReads(steps);
    WritesAppend(CallsMade(steps), if Run(steps).Pass? then write else []);
  }
}

/**
  What a call's phase says about the steps of its run: which admission, which
  decision and which answer brought it there, and what each of them leads to.
*/
module PluginDecisions {
  import opened Wrappers
  import opened Text
  import opened PluginHost

  /** The call is known after the first `k` steps, and so is its run. */
  predicate Exists(steps: seq<Step>, k: nat, c: nat) {
    k <= |steps| && var h := Execute(steps[..k]); c < |h.calls| && h.calls[c].run < |h.runs|
  }

  function CallAt(steps: seq<Step>, k: nat, c: nat): Call
    requires Exists(steps, k, c)
  {
    Execute(steps[..k]).calls[c]
  }

  /** Where call `c` stands when step `k` is taken. */
  predicate Stands(steps: seq<Step>, k: nat, c: nat, phase: Phase) {
    Exists(steps, k, c) && CallAt(steps, k, c).phase == phase
  }

  predicate CancelledAt(steps: seq<Step>, k: nat, c: nat)
    requires Exists(steps, k, c)
  {
    Execute(steps[..k]).runs[CallAt(steps, k, c).run].cancelled
  }

  /** The run of `c` is installed and not cancelled when step `k` is taken. */
  predicate CurrentAt(steps: seq<Step>, k: nat, c: nat)
    requires Exists(steps, k, c)
  {
    !CancelledAt(steps, k, c) && Execute(steps[..k]).slot == Some(CallAt(steps, k, c).run)
  }

  /** No step from `i` up to `k` is `step`. */
  predicate NoneBetween(steps: seq<Step>, i: nat, k: nat, step: Step) {
    forall j | i <= j < k && j < |steps| :: steps[j] != step
  }

  // ---------- one step ----------

  lemma OneStep(steps: seq<Step>, k: nat, c: nat)
    requires k < |steps| && Exists(steps, k, c)
    ensures Exists(steps, k + 1, c) && CallAt(steps, k + 1, c).run == CallAt(steps, k, c).run
    ensures CallOf(steps[k]) != Some(c) ==> CallAt(steps, k + 1, c) == CallAt(steps, k, c)
    ensures CallOf(steps[k]) == Some(c) ==> Execute(steps[..k + 1]) == CallStep(Execute(steps[..k]), c, steps[k])
  {
    hide Execute, Reserve, Reconcile, ChargeElicit, CallStep;
    ExecuteOneMore(steps, k);
    var h := Execute(steps[..k]);
    if CallOf(steps[k]).Some? && CallOf(steps[k]).value < |h.calls| {
      hide Next;
      CallTouchesOnlyItsRun(h, steps[k]);
    }
    if CallOf(steps[k]) == Some(c) {
      DispatchedToCall(h, steps[k], c);
    }
  }

  lemma DispatchedToCall(h: Host, step: Step, c: nat)
    requires CallOf(step) == Some(c) && c < |h.calls| && h.calls[c].run < |h.runs|
    ensures Next(h, step) == CallStep(h, c, step)
  {
    hide CallStep;
  }

  /** A call that was not there a step before was captured by that step. */
  lemma BornCaptured(steps: seq<Step>, k: nat, c: nat)
    requires k < |steps| && Exists(steps, k + 1, c) && !Exists(steps, k, c)
    ensures steps[k] == Capture && Execute(steps[..k]).slot == Some(CallAt(steps, k + 1, c).run)
    ensures CallAt(steps, k + 1, c).phase == Captured
  {
    hide Execute, Reserve, Reconcile, ChargeElicit, Account;
    ExecuteOneMore(steps, k);
    ReachableHostsAreSound(steps[..k]);
    var h := Execute(steps[..k]);
    assert c >= |h.calls|;
    if CallOf(steps[k]).Some? && CallOf(steps[k]).value < |h.calls| {
      hide Next;
      CallTouchesOnlyItsRun(h, steps[k]);
    }
  }

  // ---------- what brought a call where it stands ----------

  /** A token for every four characters begun, and at most 8192 for the output. */
  function Estimate(chars: nat, maxTokens: nat): nat {
    (chars + 3) / 4 + if maxTokens < 8192 then maxTokens else 8192
  }

  /** How a call can have come to `now`: from where, by which step, and in what state of its run. */
  predicate Leads(cancelled: bool, current: bool, was: Phase, step: Step, now: Phase) {
    match now
    case Captured => false
    case Entered => was == Captured && step.Enter? && !cancelled
    case Refused => (was == Captured && step.Enter? && cancelled) || (was == Entered && step.ReserveFor?)
    case Reserved(held) =>
      && was == Entered && step.ReserveFor? && step.chars <= 262144 && held == Estimate(step.chars, step.maxTokens)
    case Allowed(held) => was == Phase.Reserved(held) && step.Decide? && !step.fullAccess && step.decision == Allow
    case Approved(held) =>
      || (was == Phase.Reserved(held) && step.Decide? && step.fullAccess)
      || (was == Allowed(held) && step.RecheckApproval? && current)
    case Answered(held, usage) =>
      && was == Approved(held) && step.Answer? && step.response.Done?
      && (usage.None? <==> step.response.usage.None?)
      && (usage.Some? ==>
            var sum := step.response.usage.value.0 + step.response.usage.value.1;
            usage.value == if sum <= U64_MAX then sum else U64_MAX)
    case Current(held, actual) => was == Answered(held, Some(actual)) && step.RecheckAnswer? && current
    case Settled(held, actual) => was == Current(held, actual) && step.Settle?
    case Kept(held) =>
      || (was == Phase.Reserved(held) && step.Decide? && !step.fullAccess && step.decision != Allow)
      || (was == Allowed(held) && step.RecheckApproval? && !current)
      || (was == Approved(held) && step.Answer? && !step.response.Done?)
      || (was == Answered(held, None) && step.RecheckAnswer?)
      || (was.Answered? && was.held == held && step.RecheckAnswer? && !current)
  }

  lemma CallStepLeads(h: Host, c: nat, step: Step)
    requires c < |h.calls| && h.calls[c].run < |h.runs| && CallOf(step) == Some(c)
    requires CallStep(h, c, step).calls[c].phase != h.calls[c].phase
    ensures Leads(h.runs[h.calls[c].run].cancelled, IsCurrent(h, h.calls[c].run), h.calls[c].phase, step,
                  CallStep(h, c, step).calls[c].phase)
  {
    hide Reserve, Reconcile;
  }

  /** The step that moved the call to where it stands. */
  lemma {:induction false} CameBy(steps: seq<Step>, k: nat, c: nat) returns (j: nat)
    requires Exists(steps, k, c) && !CallAt(steps, k, c).phase.Captured?
    ensures j < k <= |steps| && Exists(steps, j, c) && CallOf(steps[j]) == Some(c)
    ensures CallAt(steps, j, c).phase != CallAt(steps, k, c).phase
    ensures forall m | j < m <= k :: Stands(steps, m, c, CallAt(steps, k, c).phase)
    ensures Leads(CancelledAt(steps, j, c), CurrentAt(steps, j, c), CallAt(steps, j, c).phase, steps[j],
                  CallAt(steps, k, c).phase)
    decreases k
  {
    hide Execute, CallStep, Leads;
    NobodyAtFirst(steps, c);
    if !Exists(steps, k - 1, c) {
      BornCaptured(steps, k - 1, c);
      assert false;
    }
    OneStep(steps, k - 1, c);
    if CallAt(steps, k - 1, c).phase == CallAt(steps, k, c).phase {
      j := CameBy(steps, k - 1, c);
    } else {
      j := k - 1;
      CallStepLeads(Execute(steps[..j]), c, steps[j]);
    }
  }

  lemma NobodyAtFirst(steps: seq<Step>, c: nat)
    ensures !Exists(steps, 0, c)
  {
  }

  /** An admitted call: the run it captured, its entry, and the size it reserved for. */
  lemma AdmissionTrace(steps: seq<Step>, k: nat, c: nat) returns (e: nat, v: nat, chars: nat, maxTokens: nat)
    requires Exists(steps, k, c) && Admitted(CallAt(steps, k, c), CallAt(steps, k, c).run)
    ensures e < v < k && Stands(steps, e, c, Captured) && steps[e] == Enter(c) && !CancelledAt(steps, e, c)
    ensures Stands(steps, v, c, Entered) && steps[v] == ReserveFor(c, chars, maxTokens) && chars <= 262144
    ensures CallAt(steps, k, c).phase.held == Estimate(chars, maxTokens)
    decreases k
  {
    hide Exists, CallAt, CancelledAt, CurrentAt;
    var j := CameBy(steps, k, c);
    if CallAt(steps, j, c).phase.Entered? {
      v, chars, maxTokens := j, steps[j].chars, steps[j].maxTokens;
      e := CameBy(steps, v, c);
    } else {
      e, v, chars, maxTokens := AdmissionTrace(steps, j, c);
    }
  }

  /** Past approval, its answer or its settlement. */
  predicate WentOn(phase: Phase) {
    phase.Approved? || phase.Answered? || phase.Current? || phase.Settled?
  }

  /** At `d` the reserved call was decided under full access. */
  predicate Unasked(steps: seq<Step>, d: nat, c: nat) {
    && d < |steps| && Exists(steps, d, c) && CallAt(steps, d, c).phase.Reserved?
    && steps[d].Decide? && steps[d].call == c && steps[d].fullAccess
  }

  /** At `d` the reserved call was allowed, and at `r`, when this was first looked at again, its run was still current. */
  predicate AllowedInTime(steps: seq<Step>, d: nat, r: nat, c: nat) {
    && d < r < |steps| && Exists(steps, d, c) && CallAt(steps, d, c).phase.Reserved?
    && steps[d] == Decide(c, false, Allow)
    && steps[r] == RecheckApproval(c) && NoneBetween(steps, d, r, RecheckApproval(c))
    && Exists(steps, r, c) && CurrentAt(steps, r, c)
  }

  /** A call that went on had full access, or was allowed while its run was alive. */
  lemma ApprovalTrace(steps: seq<Step>, k: nat, c: nat) returns (d: nat, r: nat)
    requires Exists(steps, k, c) && WentOn(CallAt(steps, k, c).phase)
    ensures d < k && r < k && (Unasked(steps, d, c) || AllowedInTime(steps, d, r, c))
    ensures CallAt(steps, d, c).phase.held == CallAt(steps, k, c).phase.held
    decreases k
  {
    hide Exists, CallAt, CancelledAt, CurrentAt;
    var j := CameBy(steps, k, c);
    if CallAt(steps, j, c).phase.Reserved? {
      d, r := j, j;
    } else if CallAt(steps, j, c).phase.Allowed? {
      r := j;
      d := AllowedTrace(steps, j, c);
    } else {
      d, r := ApprovalTrace(steps, j, c);
    }
  }

  lemma AllowedTrace(steps: seq<Step>, k: nat, c: nat) returns (d: nat)
    requires Exists(steps, k, c) && CallAt(steps, k, c).phase.Allowed?
    ensures d < k && Stands(steps, d, c, Phase.Reserved(CallAt(steps, k, c).phase.held))
    ensures steps[d] == Decide(c, false, Allow) && NoneBetween(steps, d, k, RecheckApproval(c))
  {
    hide Exists, CallAt, CancelledAt, CurrentAt;
    d := CameBy(steps, k, c);
    forall j | d < j < k
      ensures steps[j] != RecheckApproval(c)
    {
      assert Stands(steps, j, c, CallAt(steps, k, c).phase) && Stands(steps, j + 1, c, CallAt(steps, k, c).phase);
      if steps[j] == RecheckApproval(c) {
        LookMoves(steps, j, c);
      }
    }
  }

  /** A second look moves every allowed call. */
  lemma LookMoves(steps: seq<Step>, j: nat, c: nat)
    requires j < |steps| && Exists(steps, j, c) && CallAt(steps, j, c).phase.Allowed?
    requires steps[j] == RecheckApproval(c)
    ensures Exists(steps, j + 1, c) && !CallAt(steps, j + 1, c).phase.Allowed?
  {
    OneStep(steps, j, c);
    hide Execute;
  }

  /** A settled call: what the model reported, found current, and nothing else was charged. */
  lemma SettledTrace(steps: seq<Step>, k: nat, c: nat) returns (a: nat, x: nat, z: nat, input: u64, output: u64)
    requires Exists(steps, k, c) && CallAt(steps, k, c).phase.Settled?
    ensures a < x < z < k
    ensures Stands(steps, a, c, Approved(CallAt(steps, k, c).phase.held))
    ensures steps[a] == Answer(c, Done(Some((input, output))))
    ensures CallAt(steps, k, c).phase.actual == if input + output <= U64_MAX then input + output else U64_MAX
    ensures steps[x] == RecheckAnswer(c) && Exists(steps, x, c) && CurrentAt(steps, x, c)
    ensures steps[z] == Settle(c)
  {
    hide Exists, CallAt, CancelledAt, CurrentAt;
    z := CameBy(steps, k, c);
    x := CameBy(steps, z, c);
    a := CameBy(steps, x, c);
    input, output := steps[a].response.usage.value.0, steps[a].response.usage.value.1;
  }

  /** Why a reservation is kept: not allowed, allowed too late, no answer, an answer too late or without usage. */
  lemma KeptTrace(steps: seq<Step>, k: nat, c: nat) returns (j: nat)
    requires Exists(steps, k, c) && CallAt(steps, k, c).phase.Kept?
    ensures j < k && Exists(steps, j, c) && CallOf(steps[j]) == Some(c)
    ensures
      var phase, held := CallAt(steps, j, c).phase, CallAt(steps, k, c).phase.held;
      || (phase == Phase.Reserved(held) && steps[j].Decide? && !steps[j].fullAccess && steps[j].decision != Allow)
      || (phase == Allowed(held) && steps[j].RecheckApproval? && !CurrentAt(steps, j, c))
      || (phase == Approved(held) && steps[j].Answer? && !steps[j].response.Done?)
      || (phase == Answered(held, None) && steps[j].RecheckAnswer?)
      || (phase.Answered? && phase.held == held && steps[j].RecheckAnswer? && !CurrentAt(steps, j, c))
  {
    hide Exists, CallAt, CancelledAt, CurrentAt;
    j := CameBy(steps, k, c);
  }

  // ---------- where a step takes a call ----------

  /** Nothing moves a call that is at its end. */
  lemma {:induction false} EndStays(steps: seq<Step>, k: nat, c: nat, m: nat)
    requires k <= m <= |steps| && Exists(steps, k, c)
    requires var p := CallAt(steps, k, c).phase; p.Kept? || p.Refused? || p.Settled?
    ensures Stands(steps, m, c, CallAt(steps, k, c).phase)
    decreases m
  {
    hide Execute, Reserve, Reconcile, Reservation;
    if k < m {
      EndStays(steps, k, c, m - 1);
      OneStep(steps, m - 1, c);
    }
  }

  /** An allowed call waits for its second look. */
  lemma {:induction false} AllowedWaits(steps: seq<Step>, k: nat, c: nat, m: nat)
    requires k <= m <= |steps| && Exists(steps, k, c) && CallAt(steps, k, c).phase.Allowed?
    requires NoneBetween(steps, k, m, RecheckApproval(c))
    ensures Stands(steps, m, c, CallAt(steps, k, c).phase)
    decreases m
  {
    hide Execute, Reserve, Reconcile, Reservation;
    if k < m {
      AllowedWaits(steps, k, c, m - 1);
      OneStep(steps, m - 1, c);
    }
  }

  /** Any decision but Allow, without full access, keeps the call out for good, its reservation on the ledger. */
  lemma DeniedForGood(steps: seq<Step>, d: nat, c: nat, k: nat)
    requires d < k <= |steps| && Exists(steps, d, c) && CallAt(steps, d, c).phase.Reserved?
    requires steps[d].Decide? && steps[d].call == c && !steps[d].fullAccess && steps[d].decision != Allow
    ensures Stands(steps, k, c, Kept(CallAt(steps, d, c).phase.held))
    ensures Weight(CallAt(steps, k, c), CallAt(steps, k, c).run) == CallAt(steps, d, c).phase.held
  {
    OneStep(steps, d, c);
    EndStays(steps, d + 1, c, k);
    hide Execute;
  }

  /** An allowed call goes on if its run is current at the second look, and is out for good if not. */
  lemma AllowedThenLookedAt(steps: seq<Step>, d: nat, r: nat, c: nat)
    requires d < r < |steps| && Exists(steps, d, c) && CallAt(steps, d, c).phase.Reserved?
    requires steps[d] == Decide(c, false, Allow)
    requires steps[r] == RecheckApproval(c) && NoneBetween(steps, d, r, RecheckApproval(c))
    ensures Exists(steps, r, c)
    ensures
      var held := CallAt(steps, d, c).phase.held;
      Stands(steps, r + 1, c, if CurrentAt(steps, r, c) then Approved(held) else Kept(held))
  {
    hide Execute, Reserve, Reconcile, Reservation;
    OneStep(steps, d, c);
    AllowedWaits(steps, d + 1, c, r);
    OneStep(steps, r, c);
  }

  lemma UnaskedGoesOn(steps: seq<Step>, d: nat, c: nat)
    requires Unasked(steps, d, c)
    ensures Stands(steps, d + 1, c, Approved(CallAt(steps, d, c).phase.held))
  {
    hide Execute, Reserve, Reconcile, Reservation;
    OneStep(steps, d, c);
  }

  /**
    The model is called for a call, at some point of the run, exactly when it had
    full access or was allowed and its run was still current at the second look.
  */
  lemma ModelIsCalledIff(steps: seq<Step>, c: nat)
    ensures (exists k | 0 <= k <= |steps| :: Exists(steps, k, c) && CallAt(steps, k, c).phase.Approved?) <==>
            (exists d | 0 <= d < |steps| :: Unasked(steps, d, c)) ||
            (exists d, r | 0 <= d < r < |steps| :: AllowedInTime(steps, d, r, c))
  {
    hide Exists, CallAt, CurrentAt;
    if k :| 0 <= k <= |steps| && Exists(steps, k, c) && CallAt(steps, k, c).phase.Approved? {
      var d, r := ApprovalTrace(steps, k, c);
    }
    if d :| 0 <= d < |steps| && Unasked(steps, d, c) {
      UnaskedGoesOn(steps, d, c);
      assert Exists(steps, d + 1, c) && CallAt(steps, d + 1, c).phase.Approved?;
    }
    if d, r :| 0 <= d < r < |steps| && AllowedInTime(steps, d, r, c) {
      AllowedThenLookedAt(steps, d, r, c);
      assert Exists(steps, r + 1, c) && CallAt(steps, r + 1, c).phase.Approved?;
    }
  }

  // ---------- prompts ----------

  /** A form is charged exactly when its run was charged for fewer than 64; either way it is not charged again. */
  lemma PromptIsChargedIff(steps: seq<Step>, i: nat)
    requires i < |Execute(steps).prompts| && !Execute(steps).prompts[i].done
    ensures
      var h, t := Execute(steps), Next(Execute(steps), ChargePrompt(i));
      && t.prompts[i].done && t.prompts[i].run == h.prompts[i].run
      && (t.prompts[i].charged <==> Total(h.prompts, Prompts(h.prompts[i].run)) < 64)
  {
    hide Execute, Total;
    ReachableHostsAreSound(steps);
    assert Account(Execute(steps), Execute(steps).prompts[i].run);
  }
}

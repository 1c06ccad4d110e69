/**
  Plugin sampling of src/plugin_host.rs: concurrent calls capture a run, reserve
  from its budget, wait for approval and for the model, and settle, while runs
  are installed, replaced, cancelled and cleared around them.
*/
module PluginHost {
  import opened Wrappers
  import opened Text

  const SAMPLING_MAX_OUTPUT := 8192
  const SAMPLING_MAX_TOTAL_CHARS := 262144
  const SAMPLING_MAX_REQUESTS := 64
  const SAMPLING_TOKEN_BUDGET := 1_000_000
  const ELICIT_MAX := 64
  const MAX_RESERVATION := SAMPLING_MAX_TOTAL_CHARS / 4 + SAMPLING_MAX_OUTPUT

  // ---------- the budget of one run ----------

  datatype Budget = Budget(requests: u32, tokens: u64, requestsCap: u32, tokensCap: u64, elicits: u32, elicitsCap: u32)

  const PER_RUN := Budget(0, 0, SAMPLING_MAX_REQUESTS, SAMPLING_TOKEN_BUDGET, 0, ELICIT_MAX)
  const AUTOMATIC_WORK := PER_RUN.(requestsCap := 0)

  function Saturated(n: nat): u64 { if n <= U64_MAX then n else U64_MAX }

  function SaturatedSub(a: nat, b: nat): nat { if a < b then 0 else a - b }

  function Next32(n: u32): u32 { if n == U32_MAX then n else n + 1 }

  function Reserve(b: Budget, amount: u64): Option<Budget> {
    if Next32(b.requests) > b.requestsCap || Saturated(b.tokens + amount) > b.tokensCap then None
    else Some(b.(requests := Next32(b.requests), tokens := Saturated(b.tokens + amount)))
  }

  function Reconcile(b: Budget, reserved: u64, actual: u64): Budget {
    b.(tokens := Saturated(SaturatedSub(b.tokens, reserved) + actual))
  }

  function ChargeElicit(b: Budget): Option<Budget> {
    if Next32(b.elicits) > b.elicitsCap then None else Some(b.(elicits := Next32(b.elicits)))
  }

  /** Input at four characters a token, rounded up, and the clamped output. */
  function Reservation(chars: nat, maxTokens: nat): (r: nat)
    ensures chars <= 4 * (r - Clamped(maxTokens)) < chars + 4
  {
    (chars + 3) / 4 + Clamped(maxTokens)
  }

  function Clamped(maxTokens: nat): nat {
    if maxTokens < SAMPLING_MAX_OUTPUT then maxTokens else SAMPLING_MAX_OUTPUT
  }

  // ---------- calls and runs ----------

  /**
    Where a sampling call stands. A reservation that is not replaced by actual
    usage stays on the ledger (Kept).
  */
  datatype Phase =
    | Captured
    | Entered
    | Refused
    | Reserved(held: u64)
    | Allowed(held: u64)
    | Approved(held: u64)
    | Answered(held: u64, usage: Option<u64>)
    | Current(held: u64, actual: u64)
    | Settled(held: u64, actual: u64)
    | Kept(held: u64)

  datatype Call = Call(run: nat, phase: Phase)

  /** A run is named by the epoch its installation was given, less one. */
  datatype Run = Run(budget: Budget, cancelled: bool, published: bool)

  /** A form waiting to be shown: captured, then charged or refused. */
  datatype Prompt = Prompt(run: nat, charged: bool, done: bool)

  datatype Host = Host(slot: Option<nat>, runs: seq<Run>, calls: seq<Call>, prompts: seq<Prompt>)

  const IDLE_HOST := Host(None, [], [], [])

  datatype Decision = Allow | AskAgain | Deny | Unavailable

  datatype Response = Failed | StreamCancelled | Done(usage: Option<(u64, u64)>)

  datatype Step =
    | Allocate(automatic: bool)
    | Publish(run: nat)
    | ClearSlot
    | Cancel(run: nat)
    | Capture
    | Enter(call: nat)
    | ReserveFor(call: nat, chars: nat, maxTokens: nat)
    | Decide(call: nat, fullAccess: bool, decision: Decision)
    | RecheckApproval(call: nat)
    | Answer(call: nat, response: Response)
    | RecheckAnswer(call: nat)
    | Settle(call: nat)
    | CapturePrompt
    | ChargePrompt(prompt: nat)

  /** `context_is_current`. */
  predicate IsCurrent(h: Host, run: nat) {
    run < |h.runs| && !h.runs[run].cancelled && h.slot == Some(run)
  }

  function Moved(h: Host, call: nat, phase: Phase): Host
    requires call < |h.calls|
  {
    h.(calls := h.calls[call := h.calls[call].(phase := phase)])
  }

  function Charged(h: Host, run: nat, budget: Budget): Host
    requires run < |h.runs|
  {
    h.(runs := h.runs[run := h.runs[run].(budget := budget)])
  }

  /** Steps of one call; a step that is not its turn changes nothing. */
  function CallStep(h: Host, i: nat, step: Step): Host
    requires i < |h.calls| && h.calls[i].run < |h.runs|
  {
    var run, phase := h.calls[i].run, h.calls[i].phase;
    match step
    case Enter(_) =>
      if !phase.Captured? then h else Moved(h, i, if h.runs[run].cancelled then Refused else Entered)
    case ReserveFor(_, chars, maxTokens) =>
      if !phase.Entered? then h
      else if chars > SAMPLING_MAX_TOTAL_CHARS then Moved(h, i, Refused)
      else
        var amount := Reservation(chars, maxTokens);
        (match Reserve(h.runs[run].budget, amount)
         case None => Moved(h, i, Refused)
         case Some(b) => Moved(Charged(h, run, b), i, Phase.Reserved(amount)))
    case Decide(_, fullAccess, decision) =>
      if !phase.Reserved? then h
      else if fullAccess then Moved(h, i, Approved(phase.held))
      else if decision.Allow? then Moved(h, i, Allowed(phase.held))
      else Moved(h, i, Kept(phase.held))
    case RecheckApproval(_) =>
      if !phase.Allowed? then h
      else Moved(h, i, if IsCurrent(h, run) then Approved(phase.held) else Kept(phase.held))
    case Answer(_, response) =>
      if !phase.Approved? then h
      else if !response.Done? then Moved(h, i, Kept(phase.held))
      else Moved(h, i, Answered(phase.held, if response.usage.None? then None
                                            else Some(Saturated(response.usage.value.0 + response.usage.value.1))))
    case RecheckAnswer(_) =>
      if !phase.Answered? then h
      else if !IsCurrent(h, run) || phase.usage.None? then Moved(h, i, Kept(phase.held))
      else Moved(h, i, Current(phase.held, phase.usage.value))
    case Settle(_) =>
      if !phase.Current? then h
      else Moved(Charged(h, run, Reconcile(h.runs[run].budget, phase.held, phase.actual)), i,
                 Settled(phase.held, phase.actual))
    case _ => h
  }

  function CallOf(step: Step): Option<nat> {
    match step
    case Enter(i) => Some(i)
    case ReserveFor(i, _, _) => Some(i)
    case Decide(i, _, _) => Some(i)
    case RecheckApproval(i) => Some(i)
    case Answer(i, _) => Some(i)
    case RecheckAnswer(i) => Some(i)
    case Settle(i) => Some(i)
    case _ => None
  }

  function Next(h: Host, step: Step): Host {
    match step
    case Allocate(automatic) =>
      h.(runs := h.runs + [Run(if automatic then AUTOMATIC_WORK else PER_RUN, false, false)])
    case Publish(run) =>
      if run >= |h.runs| || h.runs[run].published then h
      else h.(slot := Some(run), runs := h.runs[run := h.runs[run].(published := true)])
    case ClearSlot => h.(slot := None)
    case Cancel(run) => if run >= |h.runs| then h else h.(runs := h.runs[run := h.runs[run].(cancelled := true)])
    case Capture => if h.slot.None? then h else h.(calls := h.calls + [Call(h.slot.value, Captured)])
    case CapturePrompt => if h.slot.None? then h else h.(prompts := h.prompts + [Prompt(h.slot.value, false, false)])
    case ChargePrompt(i) =>
      if i >= |h.prompts| || h.prompts[i].done || h.prompts[i].run >= |h.runs| then h
      else
        var run := h.prompts[i].run;
        (match ChargeElicit(h.runs[run].budget)
         case None => h.(prompts := h.prompts[i := Prompt(run, false, true)])
         case Some(b) => Charged(h, run, b).(prompts := h.prompts[i := Prompt(run, true, true)]))
    case _ =>
      var i := CallOf(step).value;
      if i < |h.calls| && h.calls[i].run < |h.runs| then CallStep(h, i, step) else h
  }

  function Execute(steps: seq<Step>): Host {
    if steps == [] then IDLE_HOST else Next(Execute(steps[..|steps| - 1]), steps[|steps| - 1])
  }

  // ---------- the ledger as the calls themselves tell it ----------

  function Total<T>(xs: seq<T>, weight: T -> nat): nat {
    if xs == [] then 0 else Total(xs[..|xs| - 1], weight) + weight(xs[|xs| - 1])
  }

  /** Tokens a call answers for: actual once settled, its reservation before. */
  function Weight(c: Call, run: nat): nat {
    if c.run != run then 0
    else match c.phase
      case Captured => 0
      case Entered => 0
      case Refused => 0
      case Settled(_, actual) => actual
      case _ => c.phase.held
  }

  predicate Admitted(c: Call, run: nat) {
    c.run == run && !c.phase.Captured? && !c.phase.Entered? && !c.phase.Refused?
  }

  function Tokens(run: nat): Call -> nat { (c: Call) => Weight(c, run) }

  function Requests(run: nat): Call -> nat { (c: Call) => if Admitted(c, run) then 1 else 0 }

  function Settlements(run: nat): Call -> nat { (c: Call) => if c.run == run && c.phase.Settled? then 1 else 0 }

  function Prompts(run: nat): Prompt -> nat { (p: Prompt) => if p.run == run && p.charged then 1 else 0 }

  lemma {:induction false} TotalUpdate<T>(xs: seq<T>, weight: T -> nat, i: nat, x: T)
    requires i < |xs|
    ensures Total(xs[i := x], weight) == Total(xs, weight) - weight(xs[i]) + weight(x)
    ensures weight(xs[i]) <= Total(xs, weight)
  {
    var n := |xs| - 1;
    if i == n {
      assert xs[i := x][..n] == xs[..n];
    } else {
      assert xs[i := x][..n] == xs[..n][i := x];
      TotalUpdate(xs[..n], weight, i, x);
    }
  }

  lemma TotalAppend<T>(xs: seq<T>, weight: T -> nat, x: T)
    ensures Total(xs + [x], weight) == Total(xs, weight) + weight(x)
  {
    assert (xs + [x])[..|xs|] == xs;
  }

  /**
    The account of run `r`: its counters are those of the calls that name it.
    The token counter is exact, or so near its 64-bit top that it refuses anyway.
  */
  ghost predicate Account(h: Host, r: nat)
    requires r < |h.runs|
  {
    var b, ledger := h.runs[r].budget, Total(h.calls, Tokens(r));
    && b.requests == Total(h.calls, Requests(r)) <= b.requestsCap <= SAMPLING_MAX_REQUESTS
    && b.tokensCap == SAMPLING_TOKEN_BUDGET
    && b.elicits == Total(h.prompts, Prompts(r)) <= b.elicitsCap == ELICIT_MAX
    && b.tokens <= ledger
    && (b.tokens < ledger ==> b.tokens + MAX_RESERVATION * Total(h.calls, Settlements(r)) >= U64_MAX)
  }

  predicate SmallHolds(h: Host) {
    forall i | 0 <= i < |h.calls| && Admitted(h.calls[i], h.calls[i].run) :: h.calls[i].phase.held <= MAX_RESERVATION
  }

  predicate Known(h: Host) {
    && (h.slot.Some? ==> h.slot.value < |h.runs| && h.runs[h.slot.value].published)
    && (forall i | 0 <= i < |h.calls| :: h.calls[i].run < |h.runs|)
    && (forall i | 0 <= i < |h.prompts| :: h.prompts[i].run < |h.runs| && (h.prompts[i].charged ==> h.prompts[i].done))
  }

  ghost predicate Valid(h: Host) {
    Known(h) && SmallHolds(h) && forall r | 0 <= r < |h.runs| :: Account(h, r)
  }

  // ---------- what every step keeps ----------

  /** The sums of run `r` change only by the one call that moved. */
  lemma MovedSums(h: Host, i: nat, phase: Phase, r: nat)
    requires i < |h.calls|
    ensures
      var was, now := h.calls[i], h.calls[i].(phase := phase);
      var t := Moved(h, i, phase);
      && Total(t.calls, Tokens(r)) == Total(h.calls, Tokens(r)) - Weight(was, r) + Weight(now, r)
      && Total(t.calls, Requests(r)) == Total(h.calls, Requests(r)) - Requests(r)(was) + Requests(r)(now)
      && Total(t.calls, Settlements(r)) == Total(h.calls, Settlements(r)) - Settlements(r)(was) + Settlements(r)(now)
      && Weight(was, r) <= Total(h.calls, Tokens(r))
  {
    var now := h.calls[i].(phase := phase);
    TotalUpdate(h.calls, Tokens(r), i, now);
    TotalUpdate(h.calls, Requests(r), i, now);
    TotalUpdate(h.calls, Settlements(r), i, now);
  }

  /** A move that leaves the call's weight alone keeps every account. */
  lemma MoveKeeps(h: Host, i: nat, phase: Phase)
    requires Valid(h) && i < |h.calls|
    requires phase.Settled? <==> h.calls[i].phase.Settled?
    requires !phase.Settled?
    requires Admitted(Call(0, phase), 0) <==> Admitted(Call(0, h.calls[i].phase), 0)
    requires Admitted(Call(0, phase), 0) ==> phase.held == h.calls[i].phase.held
    ensures Valid(Moved(h, i, phase))
  {
    var t := Moved(h, i, phase);
    hide Total, Tokens, Requests, Settlements, Prompts;
    forall r | 0 <= r < |h.runs|
      ensures Account(t, r)
    {
      MovedSums(h, i, phase, r);
      assert Account(h, r);
      SameWeights(h.calls[i], phase, r);
    }
  }

  lemma SameWeights(c: Call, phase: Phase, r: nat)
    requires !phase.Settled? && !c.phase.Settled?
    requires Admitted(Call(0, phase), 0) <==> Admitted(Call(0, c.phase), 0)
    requires Admitted(Call(0, phase), 0) ==> phase.held == c.phase.held
    ensures Weight(c.(phase := phase), r) == Weight(c, r)
    ensures Requests(r)(c.(phase := phase)) == Requests(r)(c)
    ensures Settlements(r)(c.(phase := phase)) == Settlements(r)(c)
  {
  }

  lemma ReserveKeeps(h: Host, i: nat, amount: u64, b: Budget)
    requires Valid(h) && i < |h.calls| && h.calls[i].phase.Entered? && amount <= MAX_RESERVATION
    requires Reserve(h.runs[h.calls[i].run].budget, amount) == Some(b)
    ensures Valid(Moved(Charged(h, h.calls[i].run, b), i, Phase.Reserved(amount)))
  {
    var run := h.calls[i].run;
    var t := Moved(Charged(h, run, b), i, Phase.Reserved(amount));
    hide Total, Prompts;
    forall r | 0 <= r < |h.runs|
      ensures Account(t, r)
    {
      MovedSums(h, i, Phase.Reserved(amount), r);
      assert Account(h, r);
    }
  }

  lemma SettleKeeps(h: Host, i: nat)
    requires Valid(h) && i < |h.calls| && h.calls[i].phase.Current?
    ensures
      var c := h.calls[i];
      Valid(Moved(Charged(h, c.run, Reconcile(h.runs[c.run].budget, c.phase.held, c.phase.actual)), i,
                  Settled(c.phase.held, c.phase.actual)))
  {
    var c := h.calls[i];
    var done := Settled(c.phase.held, c.phase.actual);
    var b := Reconcile(h.runs[c.run].budget, c.phase.held, c.phase.actual);
    var t := Moved(Charged(h, c.run, b), i, done);
    hide Total, Prompts, Reconcile;
    forall r | 0 <= r < |h.runs|
      ensures Account(t, r)
    {
      MovedSums(h, i, done, r);
      assert Account(h, r);
      if r == c.run {
        SettledAreAdmitted(h.calls, r);
        ReconcileIsExact(h.runs[r].budget, c.phase.held, c.phase.actual,
                         Total(h.calls, Tokens(r)), Total(h.calls, Settlements(r)));
      }
    }
  }

  /** Replacing a reservation keeps the counter exact or saturated. */
  lemma ReconcileIsExact(b: Budget, held: u64, actual: u64, ledger: nat, settled: nat)
    requires held <= MAX_RESERVATION && held <= ledger && b.tokens <= ledger && settled <= SAMPLING_MAX_REQUESTS
    requires b.tokens < ledger ==> b.tokens + MAX_RESERVATION * settled >= U64_MAX
    ensures
      var t := Reconcile(b, held, actual).tokens;
      && t <= ledger - held + actual
      && (t < ledger - held + actual ==> t + MAX_RESERVATION * (settled + 1) >= U64_MAX)
    ensures Reconcile(b, held, actual) == b.(tokens := Reconcile(b, held, actual).tokens)
  {
  }

  lemma {:induction false} SettledAreAdmitted(calls: seq<Call>, r: nat)
    ensures Total(calls, Settlements(r)) <= Total(calls, Requests(r))
  {
    if calls != [] {
      SettledAreAdmitted(calls[..|calls| - 1], r);
    }
  }

  lemma CallStepKeeps(h: Host, i: nat, step: Step)
    requires Valid(h) && i < |h.calls|
    ensures Valid(CallStep(h, i, step))
  {
    hide Valid, Reserve, Reconcile;
    assert h.calls[i].run < |h.runs| by { ValidKnows(h, i); }
    var run, phase := h.calls[i].run, h.calls[i].phase;
    match step
    case Enter(_) => if phase.Captured? { MoveKeeps(h, i, if h.runs[run].cancelled then Refused else Entered); }
    case ReserveFor(_, chars, maxTokens) =>
      if phase.Entered? {
        MoveKeeps(h, i, Refused);
        if chars <= SAMPLING_MAX_TOTAL_CHARS && Reserve(h.runs[run].budget, Reservation(chars, maxTokens)).Some? {
          ReserveKeeps(h, i, Reservation(chars, maxTokens), Reserve(h.runs[run].budget, Reservation(chars, maxTokens)).value);
        }
      }
    case Decide(_, full, decision) =>
      if phase.Reserved? {
        MoveKeeps(h, i, Approved(phase.held));
        MoveKeeps(h, i, Allowed(phase.held));
        MoveKeeps(h, i, Kept(phase.held));
      }
    case RecheckApproval(_) =>
      if phase.Allowed? {
        MoveKeeps(h, i, Approved(phase.held));
        MoveKeeps(h, i, Kept(phase.held));
      }
    case Answer(_, response) =>
      if phase.Approved? {
        MoveKeeps(h, i, Kept(phase.held));
        if response.Done? {
          MoveKeeps(h, i, Answered(phase.held, if response.usage.None? then None
                                               else Some(Saturated(response.usage.value.0 + response.usage.value.1))));
        }
      }
    case RecheckAnswer(_) =>
      if phase.Answered? {
        MoveKeeps(h, i, Kept(phase.held));
        if phase.usage.Some? {
          MoveKeeps(h, i, Current(phase.held, phase.usage.value));
        }
      }
    case Settle(_) => if phase.Current? { SettleKeeps(h, i); }
    case _ =>
  }

  lemma ValidKnows(h: Host, i: nat)
    requires Valid(h) && i < |h.calls|
    ensures h.calls[i].run < |h.runs|
  {
  }

  lemma PromptKeeps(h: Host, i: nat)
    requires Valid(h) && i < |h.prompts|
    ensures Valid(Next(h, ChargePrompt(i)))
  {
    var t := Next(h, ChargePrompt(i));
    var run := h.prompts[i].run;
    hide Total, Tokens, Requests, Settlements, Weight;
    if !h.prompts[i].done {
      forall r | 0 <= r < |h.runs|
        ensures Account(t, r)
      {
        TotalUpdate(h.prompts, Prompts(r), i, t.prompts[i]);
        assert Account(h, r);
      }
    }
  }

  lemma GrowthKeeps(h: Host, step: Step)
    requires Valid(h) && (step.Allocate? || step.Capture? || step.CapturePrompt?)
    ensures Valid(Next(h, step))
  {
    var t := Next(h, step);
    hide Total;
    forall r | 0 <= r < |t.runs|
      ensures Account(t, r)
    {
      if r < |h.runs| {
        assert Account(h, r);
      } else {
        UnknownRunIsEmpty(h.calls, r);
        UnknownPromptIsEmpty(h.prompts, r);
      }
      if step.Capture? && h.slot.Some? {
        TotalAppend(h.calls, Tokens(r), Call(h.slot.value, Captured));
        TotalAppend(h.calls, Requests(r), Call(h.slot.value, Captured));
        TotalAppend(h.calls, Settlements(r), Call(h.slot.value, Captured));
      }
      if step.CapturePrompt? && h.slot.Some? {
        TotalAppend(h.prompts, Prompts(r), Prompt(h.slot.value, false, false));
      }
    }
  }

  lemma {:induction false} UnknownRunIsEmpty(calls: seq<Call>, r: nat)
    requires forall i | 0 <= i < |calls| :: calls[i].run != r
    ensures Total(calls, Tokens(r)) == Total(calls, Requests(r)) == Total(calls, Settlements(r)) == 0
  {
    if calls != [] {
      UnknownRunIsEmpty(calls[..|calls| - 1], r);
    }
  }

  lemma {:induction false} UnknownPromptIsEmpty(prompts: seq<Prompt>, r: nat)
    requires forall i | 0 <= i < |prompts| :: prompts[i].run != r
    ensures Total(prompts, Prompts(r)) == 0
  {
    if prompts != [] {
      UnknownPromptIsEmpty(prompts[..|prompts| - 1], r);
    }
  }

  lemma SlotStepKeeps(h: Host, step: Step)
    requires Valid(h) && (step.Publish? || step.ClearSlot? || step.Cancel?)
    ensures Valid(Next(h, step))
  {
    var t := Next(h, step);
    hide Total, Tokens, Requests, Settlements, Prompts;
    forall r | 0 <= r < |t.runs|
      ensures Account(t, r)
    {
      assert Account(h, r);
    }
  }

  lemma StepKeeps(h: Host, step: Step)
    requires Valid(h)
    ensures Valid(Next(h, step))
  {
    hide Valid, CallStep;
    if step.Publish? || step.ClearSlot? || step.Cancel? {
      SlotStepKeeps(h, step);
    } else if step.Allocate? || step.Capture? || step.CapturePrompt? {
      GrowthKeeps(h, step);
    } else if step.ChargePrompt? {
      if step.prompt < |h.prompts| {
        PromptKeeps(h, step.prompt);
      }
    } else if CallOf(step).value < |h.calls| {
      CallStepKeeps(h, CallOf(step).value, step);
    }
  }

  /** Whatever the order of steps, the books of every run are in order. */
  lemma {:induction false} ReachableHostsAreSound(steps: seq<Step>)
    ensures Valid(Execute(steps))
  {
    if steps != [] {
      hide Next;
      ReachableHostsAreSound(steps[..|steps| - 1]);
      StepKeeps(Execute(steps[..|steps| - 1]), steps[|steps| - 1]);
    }
  }

  // ---------- what the books say ----------

  /**
    In every reachable state and for every run: as many requests as admitted
    calls and never more than the cap, and a token counter that is exactly actual
    usage of settled calls plus reservations of all others, unless 64-bit
    saturation struck, and then it stands above every cap.
  */
  lemma LedgerIsExact(steps: seq<Step>, r: nat)
    requires r < |Execute(steps).runs|
    ensures
      var h := Execute(steps);
      var b, ledger := h.runs[r].budget, Total(h.calls, Tokens(r));
      && b.requests == Total(h.calls, Requests(r)) <= b.requestsCap <= 64
      && b.elicits == Total(h.prompts, Prompts(r)) <= 64
      && (ledger <= U64_MAX - 64 * MAX_RESERVATION ==> b.tokens == ledger)
      && (b.tokens != ledger ==> ledger > b.tokens > b.tokensCap + 64 * MAX_RESERVATION)
  {
    hide Execute, Total, Tokens, Requests, Settlements, Prompts;
    ReachableHostsAreSound(steps);
    var h := Execute(steps);
    assert Account(h, r);
    SettledAreAdmitted(h.calls, r);
  }

  /**
    A reservation is admitted exactly when the true ledger with it stays within
    the cap and a request is left, saturation or not.
  */
  lemma AdmittedIff(steps: seq<Step>, call: nat, chars: nat, maxTokens: nat)
    requires
      var h := Execute(steps);
      call < |h.calls| && h.calls[call].phase.Entered? && chars <= SAMPLING_MAX_TOTAL_CHARS
    ensures
      var h := Execute(steps);
      var r := h.calls[call].run;
      && r < |h.runs|
      && (Next(h, ReserveFor(call, chars, maxTokens)).calls[call].phase.Reserved? <==>
          && Total(h.calls, Requests(r)) + 1 <= h.runs[r].budget.requestsCap
          && Total(h.calls, Tokens(r)) + Reservation(chars, maxTokens) <= SAMPLING_TOKEN_BUDGET)
  {
    hide Execute, Total, Tokens, Requests, Settlements, Prompts;
    ReachableHostsAreSound(steps);
    var h := Execute(steps);
    ValidKnows(h, call);
    LedgerIsExact(steps, h.calls[call].run);
    assert Account(h, h.calls[call].run);
  }

  /** A run keeps its place and its caps through every step. */
  lemma CapsAreFixed(h: Host, step: Step, r: nat)
    requires r < |h.runs|
    ensures
      var t := Next(h, step);
      r < |t.runs| && t.runs[r].budget.requestsCap == h.runs[r].budget.requestsCap
      && t.runs[r].budget.tokensCap == h.runs[r].budget.tokensCap
  {
  }

  lemma {:induction false} CapsStayFixed(steps: seq<Step>, i: nat, r: nat)
    requires i <= |steps| && r < |Execute(steps[..i]).runs|
    ensures r < |Execute(steps).runs|
    ensures Execute(steps).runs[r].budget.requestsCap == Execute(steps[..i]).runs[r].budget.requestsCap
    decreases |steps| - i
  {
    hide Execute, Next;
    if i == |steps| {
      assert steps[..i] == steps;
    } else {
      ExecuteOneMore(steps, i);
      CapsAreFixed(Execute(steps[..i]), steps[i], r);
      CapsStayFixed(steps, i + 1, r);
    }
  }

  /** The run allocated for automatic work at step `i` never has an admitted call. */
  lemma AutomaticWorkNeverSamples(steps: seq<Step>, i: nat)
    requires i < |steps| && steps[i] == Allocate(true)
    ensures
      var r := |Execute(steps[..i]).runs|;
      && r < |Execute(steps).runs|
      && forall c | 0 <= c < |Execute(steps).calls| :: !Admitted(Execute(steps).calls[c], r)
  {
    hide Execute, Total;
    var r := |Execute(steps[..i]).runs|;
    ExecuteOneMore(steps, i);
    CapsStayFixed(steps, i + 1, r);
    LedgerIsExact(steps, r);
    var h := Execute(steps);
    forall c | 0 <= c < |h.calls|
      ensures !Admitted(h.calls[c], r)
    {
      TotalUpdate(h.calls, Requests(r), c, h.calls[c]);
    }
  }

  /** Settling keeps an exact counter exact just when the sum fits 64 bits. */
  lemma SettleStaysExactIff(steps: seq<Step>, i: nat)
    requires
      var h := Execute(steps);
      && i < |h.calls| && h.calls[i].phase.Current? && h.calls[i].run < |h.runs|
      && h.runs[h.calls[i].run].budget.tokens == Total(h.calls, Tokens(h.calls[i].run))
    ensures
      var h, t := Execute(steps), Next(Execute(steps), Settle(i));
      var c := h.calls[i];
      t.runs[c.run].budget.tokens == Total(t.calls, Tokens(c.run)) <==>
      Total(h.calls, Tokens(c.run)) - c.phase.held + c.phase.actual <= U64_MAX
  {
    hide Execute, Total;
    var h := Execute(steps);
    var c := h.calls[i];
    MovedSums(h, i, Settled(c.phase.held, c.phase.actual), c.run);
  }

  // ---------- a call belongs to the run it captured ----------

  /** A step about one call leaves every other call and every other run alone. */
  lemma CallTouchesOnlyItsRun(h: Host, step: Step)
    requires CallOf(step).Some? && CallOf(step).value < |h.calls|
    ensures
      var t, i := Next(h, step), CallOf(step).value;
      && t.slot == h.slot && t.prompts == h.prompts && |t.calls| == |h.calls| && |t.runs| == |h.runs|
      && t.calls[i].run == h.calls[i].run
      && (forall j | 0 <= j < |h.calls| && j != i :: t.calls[j] == h.calls[j])
      && (forall r | 0 <= r < |h.runs| && r != h.calls[i].run :: t.runs[r] == h.runs[r])
      && (h.calls[i].phase.Settled? || h.calls[i].phase.Kept? || h.calls[i].phase.Refused? ==> t == h)
  {
    hide Reserve, Reconcile;
  }

  /** The run was cancelled, or was installed and is no longer. */
  predicate Ended(h: Host, r: nat) {
    r < |h.runs| && (h.runs[r].cancelled || (h.runs[r].published && h.slot != Some(r)))
  }

  lemma EndedForGood(h: Host, step: Step, r: nat)
    requires Known(h) && Ended(h, r)
    ensures Ended(Next(h, step), r) && !IsCurrent(Next(h, step), r)
  {
    hide Reserve, Reconcile, ChargeElicit;
  }

  predicate Paid(c: Call) { c.phase.Current? || c.phase.Settled? }

  predicate PastApproval(c: Call) {
    Paid(c) || c.phase.Approved? || c.phase.Answered?
  }

  lemma EndedCallStep(h: Host, step: Step, c: nat)
    requires c < |h.calls| && Ended(h, h.calls[c].run)
    ensures c < |Next(h, step).calls| && Next(h, step).calls[c].run == h.calls[c].run
    ensures Paid(Next(h, step).calls[c]) ==> Paid(h.calls[c])
    ensures PastApproval(Next(h, step).calls[c]) && !(step.Decide? && step.call == c && step.fullAccess) ==>
              PastApproval(h.calls[c])
  {
    hide Reserve, Reconcile, ChargeElicit;
  }

  /**
    Once its run has ended, a call that had not passed its last check never
    settles, whatever happens afterwards, even if another run is installed.
  */
  lemma {:induction false} LateCallsNeverSettle(steps: seq<Step>, i: nat, c: nat)
    requires i <= |steps|
    requires
      var h := Execute(steps[..i]);
      c < |h.calls| && Ended(h, h.calls[c].run) && !Paid(h.calls[c])
    ensures
      var h := Execute(steps);
      && c < |h.calls| && h.calls[c].run == Execute(steps[..i]).calls[c].run
      && Ended(h, h.calls[c].run) && !Paid(h.calls[c])
    decreases |steps| - i
  {
    hide Execute, Next, Ended;
    if i == |steps| {
      assert steps[..i] == steps;
    } else {
      var h := Execute(steps[..i]);
      ExecuteOneMore(steps, i);
      ReachableHostsAreSound(steps[..i]);
      EndedForGood(h, steps[i], h.calls[c].run);
      EndedCallStep(h, steps[i], c);
      LateCallsNeverSettle(steps, i + 1, c);
    }
  }

  lemma ExecuteOneMore(steps: seq<Step>, i: nat)
    requires i < |steps|
    ensures Execute(steps[..i + 1]) == Next(Execute(steps[..i]), steps[i])
  {
    assert steps[..i + 1][..i] == steps[..i];
  }

  /**
    An approval that arrives after the run ended starts no model call, whatever
    happens afterwards; full access, which asks nobody, is the one way past.
  */
  lemma {:induction false} LateApprovalsStartNothing(steps: seq<Step>, i: nat, c: nat)
    requires i <= |steps|
    requires
      var h := Execute(steps[..i]);
      c < |h.calls| && Ended(h, h.calls[c].run) && !PastApproval(h.calls[c])
    requires forall k | i <= k < |steps| :: !(steps[k].Decide? && steps[k].call == c && steps[k].fullAccess)
    ensures
      var h := Execute(steps);
      c < |h.calls| && Ended(h, h.calls[c].run) && !PastApproval(h.calls[c])
    decreases |steps| - i
  {
    hide Execute, Next, Ended, PastApproval;
    if i == |steps| {
      assert steps[..i] == steps;
    } else {
      var h := Execute(steps[..i]);
      ExecuteOneMore(steps, i);
      ReachableHostsAreSound(steps[..i]);
      EndedForGood(h, steps[i], h.calls[c].run);
      EndedCallStep(h, steps[i], c);
      LateApprovalsStartNothing(steps, i + 1, c);
    }
  }

  // ---------- the history handed to plugins ----------

  const HOST_CONTEXT_MAX_ITEMS := 64
  const HOST_CONTEXT_MAX_BYTES := 262144

  /** `size` is the length of the items as JSON, or nothing when that fails. */
  predicate Fits<T>(items: seq<T>, size: seq<T> -> Option<nat>) {
    size(items).Some? && size(items).value <= HOST_CONTEXT_MAX_BYTES
  }

  function Ending<T>(history: seq<T>, n: nat): seq<T>
    requires n <= |history|
  {
    history[|history| - n..]
  }

  /** The longest ending of the last 64 items that fits, however sizes behave. */
  method BoundedHistory<T(==)>(history: seq<T>, size: seq<T> -> Option<nat>) returns (bounded: seq<T>)
    ensures |bounded| <= HOST_CONTEXT_MAX_ITEMS && |bounded| <= |history|
    ensures bounded == Ending(history, |bounded|)
    ensures bounded == [] || Fits(bounded, size)
    ensures forall n | |bounded| < n <= |history| && n <= HOST_CONTEXT_MAX_ITEMS :: !Fits(Ending(history, n), size)
  {
    var start := if |history| < HOST_CONTEXT_MAX_ITEMS then 0 else |history| - HOST_CONTEXT_MAX_ITEMS;
    bounded := history[start..];
    while bounded != [] && !Fits(bounded, size)
      invariant |bounded| <= |history| - start && bounded == Ending(history, |bounded|)
      invariant forall n | |bounded| < n <= |history| - start :: !Fits(Ending(history, n), size)
    {
      bounded := bounded[1..];
    }
  }

  // ---------- the budget object ----------

  class SamplingBudget {
    var requestsUsed: u32
    var tokensUsed: u64
    var requestsCap: u32
    var tokensCap: u64
    var elicitsUsed: u32
    var elicitsCap: u32
    var stopSequencesWarned: bool

    function Value(): Budget
      reads this
    {
      Budget(requestsUsed, tokensUsed, requestsCap, tokensCap, elicitsUsed, elicitsCap)
    }

    constructor (automatic: bool)
      ensures Value() == (if automatic then AUTOMATIC_WORK else PER_RUN) && !stopSequencesWarned
    {
      requestsUsed, tokensUsed, elicitsUsed, stopSequencesWarned := 0, 0, 0, false;
      requestsCap := if automatic then 0 else SAMPLING_MAX_REQUESTS;
      tokensCap, elicitsCap := SAMPLING_TOKEN_BUDGET, ELICIT_MAX;
    }

    method WarnStopSequencesOnce() returns (first: bool)
      modifies this`stopSequencesWarned
      ensures first == !old(stopSequencesWarned) && stopSequencesWarned && Value() == old(Value())
    {
      first := !stopSequencesWarned;
      stopSequencesWarned := true;
    }

    method ChargeElicitation() returns (ok: bool)
      modifies this`elicitsUsed
      ensures ok == ChargeElicit(old(Value())).Some?
      ensures Value() == if ok then ChargeElicit(old(Value())).value else old(Value())
    {
      var next := if elicitsUsed == U32_MAX then U32_MAX else elicitsUsed + 1;
      ok := next <= elicitsCap;
      if ok {
        elicitsUsed := next;
      }
    }

    method TryReserve(amount: u64) returns (ok: bool)
      modifies this`requestsUsed, this`tokensUsed
      ensures ok == Reserve(old(Value()), amount).Some?
      ensures Value() == if ok then Reserve(old(Value()), amount).value else old(Value())
    {
      var requestsNext := if requestsUsed == U32_MAX then U32_MAX else requestsUsed + 1;
      var tokensNext := if tokensUsed + amount > U64_MAX then U64_MAX else tokensUsed + amount;
      ok := requestsNext <= requestsCap && tokensNext <= tokensCap;
      if ok {
        requestsUsed, tokensUsed := requestsNext, tokensNext;
      }
    }

    method Settle(reserved: u64, actual: u64)
      modifies this`tokensUsed
      ensures Value() == Reconcile(old(Value()), reserved, actual)
    {
      tokensUsed := if tokensUsed < reserved then 0 else tokensUsed - reserved;
      tokensUsed := if tokensUsed + actual > U64_MAX then U64_MAX else tokensUsed + actual;
    }
  }
}

/**
  A run of the plugin host in which the 64-bit token counter saturates and so no
  longer equals the ledger.
*/
module PluginSaturation {
  import opened Wrappers
  import opened Text
  import opened PluginHost

  /** A run with both calls entered: its counters and where the calls stand. */
  function TwoCalls(requests: u32, tokens: u64, first: Phase, second: Phase): Host {
    Host(Some(0), [Run(PER_RUN.(requests := requests, tokens := tokens), false, true)], [Call(0, first), Call(0, second)], [])
  }

  function AfterSteps(h: Host, steps: seq<Step>): Host
    decreases |steps|
  {
    if steps == [] then h else AfterSteps(Next(h, steps[0]), steps[1..])
  }

  lemma {:induction false} AfterIsExecute(before: seq<Step>, steps: seq<Step>)
    ensures AfterSteps(Execute(before), steps) == Execute(before + steps)
    decreases |steps|
  {
    hide Next;
    if steps == [] {
      assert before + steps == before;
    } else {
      assert (before + [steps[0]])[..|before|] == before;
      AfterIsExecute(before + [steps[0]], steps[1..]);
      assert (before + [steps[0]]) + steps[1..] == before + steps;
    }
  }

  const OPENING: seq<Step> := [Allocate(false), Publish(0), Capture, Capture]

  const ENTERING: seq<Step> := [Enter(0), Enter(1), ReserveFor(0, 0, 1), ReserveFor(1, 0, 1)]

  const SETTLING: seq<Step> :=
    [Decide(0, true, Allow), Answer(0, Done(Some((U64_MAX, 0)))), RecheckAnswer(0), Settle(0)]

  lemma OpeningRuns()
    ensures AfterSteps(IDLE_HOST, OPENING) == TwoCalls(0, 0, Captured, Captured)
  {
    var h := Next(Next(IDLE_HOST, Allocate(false)), Publish(0));
    assert h == Host(Some(0), [Run(PER_RUN, false, true)], [], []);
    assert Next(Next(h, Capture), Capture) == TwoCalls(0, 0, Captured, Captured);
    FourSteps(IDLE_HOST, OPENING);
  }

  lemma FourSteps(h: Host, steps: seq<Step>)
    requires |steps| == 4
    ensures AfterSteps(h, steps) == Next(Next(Next(Next(h, steps[0]), steps[1]), steps[2]), steps[3])
  {
    hide Next;
    var a, b, c := steps[1..], steps[2..], steps[3..];
    var one := Next(h, steps[0]);
    var two := Next(one, steps[1]);
    var three := Next(two, steps[2]);
    assert a[1..] == b && b[1..] == c && c[1..] == [];
    assert a[0] == steps[1] && b[0] == steps[2] && c[0] == steps[3];
    assert AfterSteps(three, c) == AfterSteps(Next(three, steps[3]), []) == Next(three, steps[3]);
    assert AfterSteps(h, steps) == AfterSteps(one, a) == AfterSteps(two, b) == AfterSteps(three, c);
  }

  lemma EnteringRuns()
    ensures AfterSteps(TwoCalls(0, 0, Captured, Captured), ENTERING) == TwoCalls(2, 2, Phase.Reserved(1), Phase.Reserved(1))
  {
    var h := TwoCalls(0, 0, Captured, Captured);
    FourSteps(h, ENTERING);
    assert Next(Next(h, Enter(0)), Enter(1)) == TwoCalls(0, 0, Entered, Entered);
    assert Reservation(0, 1) == 1;
    assert Next(TwoCalls(0, 0, Entered, Entered), ReserveFor(0, 0, 1)) == TwoCalls(1, 1, Phase.Reserved(1), Entered);
    assert Next(TwoCalls(1, 1, Phase.Reserved(1), Entered), ReserveFor(1, 0, 1))
           == TwoCalls(2, 2, Phase.Reserved(1), Phase.Reserved(1));
  }

  lemma SettlingRuns()
    ensures AfterSteps(TwoCalls(2, 2, Phase.Reserved(1), Phase.Reserved(1)), SETTLING)
            == TwoCalls(2, U64_MAX, Settled(1, U64_MAX), Phase.Reserved(1))
  {
    var h := TwoCalls(2, 2, Phase.Reserved(1), Phase.Reserved(1));
    FirstMoves(Phase.Reserved(1), Decide(0, true, Allow), Approved(1));
    FirstMoves(Approved(1), Answer(0, Done(Some((U64_MAX, 0)))), Answered(1, Some(U64_MAX)));
    FirstMoves(Answered(1, Some(U64_MAX)), RecheckAnswer(0), Current(1, U64_MAX));
    assert Next(TwoCalls(2, 2, Current(1, U64_MAX), Phase.Reserved(1)), Settle(0))
           == TwoCalls(2, U64_MAX, Settled(1, U64_MAX), Phase.Reserved(1));
    FourSteps(h, SETTLING);
    hide Next;
  }

  /** A step that only moves the first call. */
  lemma FirstMoves(from: Phase, step: Step, to: Phase)
    requires !step.Settle? && !step.ReserveFor? && CallOf(step) == Some(0)
    requires CallStep(TwoCalls(2, 2, from, Phase.Reserved(1)), 0, step)
             == Moved(TwoCalls(2, 2, from, Phase.Reserved(1)), 0, to)
    ensures Next(TwoCalls(2, 2, from, Phase.Reserved(1)), step) == TwoCalls(2, 2, to, Phase.Reserved(1))
  {
    hide CallStep;
    var g := TwoCalls(2, 2, from, Phase.Reserved(1));
    assert g.calls[0 := Call(0, to)] == [Call(0, to), Call(0, Phase.Reserved(1))];
  }

  /** Two calls, one of which reports the largest usage there is: the counter is one short of the ledger. */
  lemma SaturationLosesTokens()
    ensures
      var h := Execute(OPENING + ENTERING + SETTLING);
      |h.runs| == 1 && h.runs[0].budget.tokens == U64_MAX && Total(h.calls, Tokens(0)) == U64_MAX + 1
  {
    hide Next;
    OpeningRuns();
    EnteringRuns();
    SettlingRuns();
    AfterIsExecute([], OPENING);
    assert [] + OPENING == OPENING;
    AfterIsExecute(OPENING, ENTERING);
    AfterIsExecute(OPENING + ENTERING, SETTLING);
    var calls := [Call(0, Settled(1, U64_MAX)), Call(0, Phase.Reserved(1))];
    assert calls[..1] == [calls[0]] && calls[..1][..0] == [];
    assert Total(calls[..1], Tokens(0)) == U64_MAX;
  }
}

/**
 The breathing-phase cycler of the pacer page (script.js).

 startBreathingCycle captures the four phase durations once, then keeps two
 closure variables: the index of the current phase in PHASES and a cycle
 counter. nextPhase publishes the current phase name, arms one follow-up
 timer for that phase's dwell, and bumps the counter whenever the index is 0.
 The timer callback advances the index modulo 4 and re-enters nextPhase.

 The module has two layers: pure functions that give the closure state after
 any number of timer firings (with the lemmas about them), and the class
 BreathingCycle, whose fields are those closure variables and whose methods
 change them step by step as the script does.
 */
module Breathing {

  /** The phase names, in the order the pacer shows them. */
  const PHASES: seq<string> := ["inhale", "inhale_hold", "exhale", "exhale_hold"]

  /** The two closure variables: the current phase index and the cycle counter. */
  datatype CycleState = CycleState(index: nat, count: nat)

  // ---------------------------------------------------------------------------
  // The state machine on values

  /** The effect of one nextPhase call on the closure state: the counter is
      incremented when the phase index is 0, and only then. */
  function PhaseEntered(s: CycleState): CycleState
  {
    if s.index == 0 then CycleState(s.index, s.count + 1) else s
  }

  /** One timer firing: advance the index cyclically, then re-enter nextPhase. */
  function TimerFired(s: CycleState): CycleState
  {
    PhaseEntered(CycleState((s.index + 1) % 4, s.count))
  }

  /** startBreathingCycle sets index and counter to 0 and calls nextPhase once;
      so the counter already reads 1 and the phase is the first one. */
  function Started(): (s: CycleState)
    ensures s.index == 0 && s.count == 1
  {
    PhaseEntered(CycleState(0, 0))
  }

  /** The closure state after k timer firings since the cycle was started. */
  function AfterTicks(k: nat): CycleState
  {
    if k == 0 then Started() else TimerFired(AfterTicks(k - 1))
  }

  /** Closed form: after k firings the index is k mod 4 and the counter holds
      the number of cycles begun, k div 4 + 1. */
  lemma {:induction false} ClosedForm(k: nat)
    ensures AfterTicks(k) == CycleState(k % 4, k / 4 + 1)
  {
    if k > 0 {
      ClosedForm(k - 1);
      if (k - 1) % 4 == 3 {
        assert k % 4 == 0 && k / 4 == (k - 1) / 4 + 1;
      } else {
        assert k % 4 == (k - 1) % 4 + 1 && k / 4 == (k - 1) / 4;
      }
    }
  }

  /** The index always stays within the four phases. */
  lemma IndexInRange(k: nat)
    ensures AfterTicks(k).index < |PHASES|
  {
  }

  /** Each firing sets the index to (index + 1) % 4, and the counter grows by
      exactly 1 on the firings that land on index 0 and is unchanged otherwise.
      This is the definition of TimerFired and PhaseEntered unfolded once,
      stated as the step rule of AfterTicks; it is not an independent fact. */
  lemma TickStep(k: nat)
    ensures AfterTicks(k + 1).index == (AfterTicks(k).index + 1) % 4
    ensures AfterTicks(k + 1).index == 0 ==> AfterTicks(k + 1).count == AfterTicks(k).count + 1
    ensures AfterTicks(k + 1).index != 0 ==> AfterTicks(k + 1).count == AfterTicks(k).count
  {
  }

  /** The counter never decreases. */
  lemma CountNeverDecreases(j: nat, k: nat)
    requires j <= k
    ensures AfterTicks(j).count <= AfterTicks(k).count
  {
  }

  /** Four firings complete exactly one cycle: the index is back where it was
      and the counter is one higher. */
  lemma FourTicksOneCycle(k: nat)
    ensures AfterTicks(k + 4).index == AfterTicks(k).index
    ensures AfterTicks(k + 4).count == AfterTicks(k).count + 1
  {
    ClosedForm(k);
    ClosedForm(k + 4);
  }

  /** The phase that follows each phase name, written out independently of PHASES. */
  function Successor(name: string): string
  {
    if name == "inhale" then "inhale_hold"
    else if name == "inhale_hold" then "exhale"
    else if name == "exhale" then "exhale_hold"
    else "inhale"
  }

  /** The phase name published after k firings. */
  function ShownAfter(k: nat): (name: string)
    ensures name in PHASES
  {
    IndexInRange(k);
    PHASES[AfterTicks(k).index]
  }

  /** Phases are shown in the fixed repeating order inhale, inhale_hold,
      exhale, exhale_hold, starting with inhale. */
  lemma PhaseOrder(k: nat)
    ensures ShownAfter(0) == "inhale"
    ensures ShownAfter(k) == PHASES[k % 4]
    ensures ShownAfter(k + 1) == Successor(ShownAfter(k))
  {
    ClosedForm(k);
    ClosedForm(k + 1);
  }

  /** The durations record built from the four form fields at start: each
      phase name is keyed to the field of the same name. The key set is the
      independent fact; the four lookups spell out the map literal, so that
      callers can read each phase's dwell without unfolding it. */
  function CaptureDurations<D>(inhaleSec: D, exhaleSec: D, inhaleHoldSec: D, exhaleHoldSec: D): (d: map<string, D>)
    ensures d.Keys == set name | name in PHASES
    ensures d[PHASES[0]] == inhaleSec && d[PHASES[1]] == inhaleHoldSec
    ensures d[PHASES[2]] == exhaleSec && d[PHASES[3]] == exhaleHoldSec
  {
    map["inhale" := inhaleSec, "exhale" := exhaleSec,
        "inhale_hold" := inhaleHoldSec, "exhale_hold" := exhaleHoldSec]
  }

  /** A durations record has a dwell for every phase. */
  ghost predicate CoversPhases<D>(d: map<string, D>)
  {
    forall i :: 0 <= i < |PHASES| ==> PHASES[i] in d
  }

  // ---------------------------------------------------------------------------
  // The running cycle, as the script mutates it

  /** One running breathing cycle: the closure of one startBreathingCycle call.
      D is the type of a phase duration; its value is never inspected. */
  class BreathingCycle<D> {
    /** The durations record, captured once when the cycle starts. */
    var durations: map<string, D>
    var currentPhaseIndex: nat
    var cycleCount: nat
    /** The phase name last published to the page. */
    var shownPhase: string
    /** The counter value last published to the page. */
    var shownCount: nat
    /** The dwell of every armed timer that has not fired yet, oldest first. */
    var pending: seq<D>
    /** The number of timer firings since the cycle started. */
    ghost var ticks: nat

    /** The invariant of a running cycle: the closure state is the one after
        `ticks` firings, the page shows the current phase and counter, and
        exactly one timer is pending, armed with the current phase's dwell. */
    ghost predicate Valid()
      reads this
    {
      && CoversPhases(durations)
      && CycleState(currentPhaseIndex, cycleCount) == AfterTicks(ticks)
      && currentPhaseIndex < |PHASES|
      && shownPhase == PHASES[currentPhaseIndex]
      && shownCount == cycleCount
      && pending == [durations[PHASES[currentPhaseIndex]]]
    }

    /** startBreathingCycle: capture the durations from the form's values,
        set index and counter to 0 and run nextPhase once. */
    constructor Start(inhaleSec: D, exhaleSec: D, inhaleHoldSec: D, exhaleHoldSec: D)
      ensures Valid()
      ensures durations == CaptureDurations(inhaleSec, exhaleSec, inhaleHoldSec, exhaleHoldSec)
      ensures ticks == 0 && currentPhaseIndex == 0 && cycleCount == 1
      ensures shownPhase == "inhale" && shownCount == 1
      ensures pending == [inhaleSec]
    {
      durations := CaptureDurations(inhaleSec, exhaleSec, inhaleHoldSec, exhaleHoldSec);
      currentPhaseIndex := 0;
      cycleCount := 0;
      shownPhase := "";
      shownCount := 0;
      pending := [];
      ticks := 0;
      new;
      NextPhase();
    }

    /** nextPhase: publish the current phase, arm one timer for its dwell, and
        increment and publish the counter when the index is 0. */
    method NextPhase()
      requires currentPhaseIndex < |PHASES| && CoversPhases(durations)
      modifies this
      ensures durations == old(durations) && currentPhaseIndex == old(currentPhaseIndex)
      ensures ticks == old(ticks)
      ensures shownPhase == PHASES[currentPhaseIndex]
      ensures pending == old(pending) + [durations[PHASES[currentPhaseIndex]]]
      ensures CycleState(currentPhaseIndex, cycleCount)
           == PhaseEntered(CycleState(old(currentPhaseIndex), old(cycleCount)))
      ensures shownCount == if currentPhaseIndex == 0 then cycleCount else old(shownCount)
    {
      var phaseName := PHASES[currentPhaseIndex];
      shownPhase := phaseName;
      pending := pending + [durations[phaseName]];
      if currentPhaseIndex == 0 {
        cycleCount := cycleCount + 1;
        shownCount := cycleCount;
      }
    }

    /** One firing of the pending timer: it is no longer pending, the index
        advances modulo 4 and nextPhase runs again. */
    method Tick()
      requires Valid()
      modifies this
      ensures Valid()
      ensures ticks == old(ticks) + 1
      ensures durations == old(durations)
      ensures currentPhaseIndex == (old(currentPhaseIndex) + 1) % 4
      ensures cycleCount == old(cycleCount) + (if currentPhaseIndex == 0 then 1 else 0)
      ensures currentPhaseIndex == ticks % 4 && cycleCount == ticks / 4 + 1
      ensures shownPhase == Successor(old(shownPhase))
      ensures pending == [durations[PHASES[currentPhaseIndex]]]
    {
      pending := pending[1..];
      currentPhaseIndex := (currentPhaseIndex + 1) % 4;
      NextPhase();
      ticks := ticks + 1;
      PhaseOrder(ticks - 1);
      ClosedForm(ticks);
    }
  }
}

/** The cancellable countdown that precedes a reboot or a shutdown: after a
    one-second grace period it draws the count, lowers it, sleeps one
    second and polls the button, until the count reaches zero or a poll
    finds the button pressed. */
module Countdown {
  import opened OledBase

  datatype Action = RebootAction | ShutdownAction

  /** The count the countdown starts from. */
  function Steps(a: Action): nat
  {
    match a
    case RebootAction => RebootCountdown
    case ShutdownAction => ShutdownCountdown
  }

  /** The screen each step draws. */
  function Frame(a: Action): Screen
  {
    match a
    case RebootAction => Rebooting
    case ShutdownAction => ShuttingDown
  }

  /** The menu entry a long press must be on to start the countdown. */
  function Armed(a: Action): Screen
  {
    match a
    case RebootAction => Reboot
    case ShutdownAction => Shutdown
  }

  /** The command launched when the countdown runs out. */
  function CommandOf(a: Action): Command
  {
    match a
    case RebootAction => RebootNow
    case ShutdownAction => ShutdownNow
  }

  /** Cancelled(step): the poll after the step-th frame found the button
      pressed. Executed: every poll found it released. */
  datatype Outcome = Cancelled(step: nat) | Executed

  /** polls[i] is the button as polled after step i + 1; a reading that is
      not supplied counts as released. */
  predicate Pressed(polls: seq<bool>, i: nat)
  {
    i < |polls| && polls[i]
  }

  /** Index of the first pressed poll among the first n, or n if none. */
  function FirstPress(polls: seq<bool>, n: nat): (k: nat)
    ensures k <= n
    ensures k < n ==> Pressed(polls, k)
    ensures forall j :: 0 <= j < k ==> !Pressed(polls, j)
    decreases n
  {
    if n == 0 then 0
    else
      var k := FirstPress(polls, n - 1);
      if k < n - 1 then k
      else if Pressed(polls, n - 1) then n - 1
      else n
  }

  /** The counts c, c - 1, ..., c - k + 1. */
  function Descending(c: nat, k: nat): (r: seq<nat>)
    requires k <= c
    ensures |r| == k
    ensures forall i :: 0 <= i < k ==> r[i] == c - i
    decreases k
  {
    if k == 0 then [] else Descending(c, k - 1) + [c - (k - 1)]
  }

  /** The first k steps of a countdown from c: draw, then sleep a second. */
  function Frames(screen: Screen, c: nat, k: nat): seq<Effect>
    requires k <= c
    decreases k
  {
    if k == 0 then [] else Frames(screen, c, k - 1) + [Display(screen, c - (k - 1)), Sleep(1000)]
  }

  /** How many of n steps run: up to and including the first pressed poll. */
  function RunLength(polls: seq<bool>, n: nat): (k: nat)
    ensures k <= n
  {
    var p := FirstPress(polls, n);
    if p < n then p + 1 else n
  }

  function OutcomeOf(polls: seq<bool>, n: nat): Outcome
  {
    var p := FirstPress(polls, n);
    if p < n then Cancelled(p + 1) else Executed
  }

  function CountdownOutcome(a: Action, polls: seq<bool>): Outcome
  {
    OutcomeOf(polls, Steps(a))
  }

  /** Everything a countdown from n does: the grace second, then the steps run. */
  function Trace(screen: Screen, polls: seq<bool>, n: nat): seq<Effect>
  {
    [Sleep(1000)] + Frames(screen, n, RunLength(polls, n))
  }

  function CountdownEffects(a: Action, polls: seq<bool>): seq<Effect>
  {
    Trace(Frame(a), polls, Steps(a))
  }

  /** The `while count > 0` loop, with its break on a pressed poll. */
  method RunCountdown(a: Action, polls: seq<bool>) returns (outcome: Outcome, fx: seq<Effect>)
    ensures outcome == CountdownOutcome(a, polls)
    ensures fx == CountdownEffects(a, polls)
  {
    var n := Steps(a);
    fx := [Sleep(1000)];
    var count := n;
    outcome := Executed;
    while count > 0
      invariant 0 <= count <= n
      invariant forall j :: 0 <= j < n - count ==> !Pressed(polls, j)
      invariant fx == [Sleep(1000)] + Frames(Frame(a), n, n - count)
    {
      fx := fx + [Display(Frame(a), count)];
      count := count - 1;
      fx := fx + [Sleep(1000)];
      if Pressed(polls, n - count - 1) {
        outcome := Cancelled(n - count);
        break;
      }
    }
  }

  /** k steps of a countdown from c draw the counts c, ..., c - k + 1. */
  lemma {:induction false} FramesCounts(screen: Screen, c: nat, k: nat)
    requires screen == Rebooting || screen == ShuttingDown
    requires k <= c
    ensures CountsShown(Frames(screen, c, k)) == Descending(c, k)
    decreases k
  {
    if k > 0 {
      var step := [Display(screen, c - (k - 1)), Sleep(1000)];
      FramesCounts(screen, c, k - 1);
      CountsShownAppend(Frames(screen, c, k - 1), step);
      assert step[1..] == [Sleep(1000)];
      assert step[1..][1..] == [];
      assert CountsShown(step[1..]) == [] + CountsShown(step[1..][1..]);
      assert CountsShown(step) == [c - (k - 1)] + CountsShown(step[1..]);
    }
  }

  /** k steps sleep k seconds. */
  lemma {:induction false} FramesSleep(screen: Screen, c: nat, k: nat)
    requires k <= c
    ensures SleptMs(Frames(screen, c, k)) == 1000 * k
    decreases k
  {
    if k > 0 {
      var step := [Display(screen, c - (k - 1)), Sleep(1000)];
      FramesSleep(screen, c, k - 1);
      SleptMsAppend(Frames(screen, c, k - 1), step);
      assert step[1..] == [Sleep(1000)];
      assert step[1..][1..] == [];
      assert SleptMs(step[1..]) == 1000 + SleptMs(step[1..][1..]);
      assert SleptMs(step) == 0 + SleptMs(step[1..]);
    }
  }

  /** Steps neither blank the panel nor launch anything. */
  lemma {:induction false} FramesQuiet(screen: Screen, c: nat, k: nat)
    requires screen == Rebooting || screen == ShuttingDown
    requires k <= c
    ensures Launches(Frames(screen, c, k)) == 0
    ensures Blanks(Frames(screen, c, k)) == 0
  {
    FramesShape(screen, c, k);
    var fx := Frames(screen, c, k);
    CountIn(fx, Launch(RebootNow));
    CountIn(fx, Launch(ShutdownNow));
    CountIn(fx, Display(Blank, 0));
  }

  /** A countdown of n steps is cancelled exactly when one of its polls
      finds the button pressed; cancelled at step k, the k-th poll was the
      first pressed one and k steps have run, otherwise all n have. */
  lemma RunOutcome(polls: seq<bool>, n: nat)
    ensures var out := OutcomeOf(polls, n);
      out.Cancelled? <==> exists j :: 0 <= j < n && Pressed(polls, j)
    ensures var out := OutcomeOf(polls, n);
      out.Cancelled? ==>
        && 1 <= out.step <= n
        && Pressed(polls, out.step - 1)
        && (forall j :: 0 <= j < out.step - 1 ==> !Pressed(polls, j))
        && RunLength(polls, n) == out.step
    ensures OutcomeOf(polls, n).Executed? ==> RunLength(polls, n) == n
  {
  }

  /** A countdown from n that runs k steps draws the counts n, ...,
      n - k + 1 (so the last count seen is n - k + 1) and sleeps k + 1
      seconds, the grace second included; it launches nothing and does not
      blank the panel. */
  lemma RunTrace(screen: Screen, polls: seq<bool>, n: nat)
    requires screen == Rebooting || screen == ShuttingDown
    ensures var fx := Trace(screen, polls, n);
      && CountsShown(fx) == Descending(n, RunLength(polls, n))
      && SleptMs(fx) == 1000 * (RunLength(polls, n) + 1)
      && Launches(fx) == 0
      && Blanks(fx) == 0
  {
    var k := RunLength(polls, n);
    var frames := Frames(screen, n, k);
    FramesCounts(screen, n, k);
    FramesSleep(screen, n, k);
    FramesQuiet(screen, n, k);
    CountsShownAppend([Sleep(1000)], frames);
    SleptMsAppend([Sleep(1000)], frames);
    LaunchesAppend([Sleep(1000)], frames);
    BlanksAppend([Sleep(1000)], frames);
    assert [Sleep(1000)][1..] == [];
  }

  /** Left alone, a countdown from n runs out: it draws n, n - 1, ..., 1
      and sleeps n + 1 seconds before its command can be issued (seven
      seconds for the reboot and shutdown countdowns of six). */
  lemma RunsOut(screen: Screen, polls: seq<bool>, n: nat)
    requires screen == Rebooting || screen == ShuttingDown
    requires forall j :: 0 <= j < n ==> !Pressed(polls, j)
    ensures OutcomeOf(polls, n) == Executed
    ensures CountsShown(Trace(screen, polls, n)) == Descending(n, n)
    ensures SleptMs(Trace(screen, polls, n)) == 1000 * (n + 1)
  {
    RunOutcome(polls, n);
    RunTrace(screen, polls, n);
  }

  /** Every effect of a countdown is a sleep or a frame of its own screen,
      and at least one frame is drawn when the count starts above zero. */
  lemma {:induction false} TraceShape(screen: Screen, polls: seq<bool>, n: nat)
    ensures var fx := Trace(screen, polls, n);
      forall i :: 0 <= i < |fx| ==> fx[i].Sleep? || (fx[i].Display? && fx[i].screen == screen)
    ensures n > 0 ==> exists i :: 0 <= i < |Trace(screen, polls, n)| && Trace(screen, polls, n)[i] == Display(screen, n)
  {
    FramesShape(screen, n, RunLength(polls, n));
    if n > 0 {
      assert Trace(screen, polls, n)[1] == Display(screen, n);
    }
  }

  lemma {:induction false} FramesShape(screen: Screen, c: nat, k: nat)
    requires k <= c
    ensures forall i :: 0 <= i < |Frames(screen, c, k)| ==>
      Frames(screen, c, k)[i].Sleep? || (Frames(screen, c, k)[i].Display? && Frames(screen, c, k)[i].screen == screen)
    ensures k > 0 ==> |Frames(screen, c, k)| >= 2 && Frames(screen, c, k)[0] == Display(screen, c)
    decreases k
  {
    if k > 0 {
      FramesShape(screen, c, k - 1);
    }
  }

  /** The reboot and shutdown countdowns, left alone, draw 6, 5, 4, 3, 2, 1
      and sleep seven seconds. */
  lemma CountdownRunsOut(a: Action, polls: seq<bool>)
    requires forall j :: 0 <= j < Steps(a) ==> !Pressed(polls, j)
    ensures CountdownOutcome(a, polls) == Executed
    ensures CountsShown(CountdownEffects(a, polls)) == [6, 5, 4, 3, 2, 1]
    ensures SleptMs(CountdownEffects(a, polls)) == 7000
  {
    var n := Steps(a);
    assert n == 6;
    RunsOut(Frame(a), polls, n);
    var d := Descending(n, n);
    assert d[0] == 6 && d[1] == 5 && d[2] == 4 && d[3] == 3 && d[4] == 2 && d[5] == 1;
    assert d == [6, 5, 4, 3, 2, 1];
  }

  /** A press read after the step that shows count 6 - k cancels the
      countdown there: k + 1 steps have run, drawing 6, ..., 6 - k, and
      k + 2 seconds have been slept. */
  lemma CountdownCancelled(a: Action, polls: seq<bool>, k: nat)
    requires k < Steps(a) && Pressed(polls, k)
    requires forall j :: 0 <= j < k ==> !Pressed(polls, j)
    ensures CountdownOutcome(a, polls) == Cancelled(k + 1)
    ensures CountsShown(CountdownEffects(a, polls)) == Descending(6, k + 1)
    ensures CountsShown(CountdownEffects(a, polls))[k] == 6 - k
    ensures SleptMs(CountdownEffects(a, polls)) == 1000 * (k + 2)
  {
    var n := Steps(a);
    assert n == 6;
    var p := FirstPress(polls, n);
    assert p == k;
    RunTrace(Frame(a), polls, n);
  }
}

/** The controller of bin/oled-info.py as the program keeps it: its
    module-level globals as the fields of one object, and each part of the
    main loop as a method that updates them in place and returns the
    effects it had, in order. Every method is proved to do exactly what the
    corresponding function of the Machine module does to a snapshot of the
    fields, so the properties proved there hold of the controller. */
module OledInfo {
  import opened OledBase
  import opened DiskStats
  import opened Countdown
  import Machine

  class Controller {
    var actionTime: int               // action_time, in tenths of a second
    var actionCancel: bool            // action_cancel
    var menuState: Option<nat>        // menu_state
    var buttonDownStart: Option<int>  // button_down_start, in microseconds
    var buttonDown: Option<int>       // button_down
    var buttonDownLast: Option<int>   // button_down_last
    var buttonClicked: bool           // button_clicked
    var status: Status                // running, exited or crashed

    /** The globals as a value. */
    function Snapshot(): Machine.State
      reads this
    {
      Machine.State(actionTime, actionCancel, menuState, buttonDownStart,
                    buttonDown, buttonDownLast, buttonClicked, status)
    }

    predicate Valid()
      reads this
    {
      Machine.Inv(Snapshot())
    }

    /** The globals as the main loop first finds them: the timer at
        ACTION_INITIAL_TIMEOUT, no menu entry, no press recorded. */
    constructor()
      ensures Valid()
      ensures Snapshot() == Machine.Start
    {
      actionTime := ActionInitialTimeout;
      actionCancel := false;
      menuState := None;
      buttonDownStart := None;
      buttonDown := None;
      buttonDownLast := None;
      buttonClicked := false;
      status := Running;
    }

    /** The top of the loop: count the timer down, or scan diskstats and
        drive the LED. */
    method IdleTick(io: string) returns (fx: seq<Effect>)
      requires Valid() && status.Running?
      modifies this
      ensures Valid()
      ensures Machine.Step(Snapshot(), fx) == Machine.Tick(old(Snapshot()), io)
    {
      if actionTime > 0 {
        fx := [Sleep(100)];
        actionTime := actionTime - 1;
        if actionTime <= 0 {
          fx := fx + [Display(Blank, 0)];
          menuState := None;
        }
      } else {
        var scan := ScanDiskStats(io);
        match scan
        case ValueError(tok) =>
          status := Crashed(BadDiskField(tok));
          fx := [];
        case Ok(active) =>
          if active {
            fx := [LedPulse(100, 100)];
          } else {
            fx := [LedLevel(LedResting)];
          }
          fx := fx + [Sleep(400)];
      }
    }

    /** One pass of `while button.is_pressed`, taken at time `now`; `polls`
        are the readings a countdown started in this pass would see. */
    method PressSample(now: int, polls: seq<bool>) returns (fx: seq<Effect>)
      requires Valid() && status.Running?
      modifies this
      ensures Valid()
      ensures Machine.Step(Snapshot(), fx) == Machine.PressSample(old(Snapshot()), now, polls)
    {
      buttonDown := Some(now);
      if buttonDownStart.None? {
        buttonDownStart := Some(now);
      }
      fx := [Sleep(50)];
      if actionTime <= 0 {
        fx := fx + [Display(Info, 0)];
      }
      actionTime := ActionTimeout;
      assert Snapshot() == Machine.Rearmed(old(Snapshot()), now);
      assert fx == Machine.SamplePrefix(old(Snapshot()));
      var pressDelta := now - buttonDownStart.value;
      if !actionCancel && pressDelta > ActionPress {
        if menuState.None? {
          status := Crashed(MenuIndexNone);
          return;
        }
        fx := ActionBlock(RebootAction, polls, fx);
        if status.Running? {
          fx := ActionBlock(ShutdownAction, polls, fx);
        }
      } else {
        buttonClicked := true;
      }
    }

    /** One `if MENU[menu_state] == ...` block, appended to the effects
        `pre` of the sample so far: on the action's own entry, run the
        countdown; a cancel sets action_cancel and the fixed menu index,
        running out blanks the panel, launches the command and exits. */
    method ActionBlock(a: Action, polls: seq<bool>, pre: seq<Effect>) returns (fx: seq<Effect>)
      requires Valid() && status.Running? && menuState.Some?
      requires Menu[menuState.value] == Armed(a) ==> !actionCancel
      modifies this
      ensures Valid()
      ensures Machine.Step(Snapshot(), fx) == Machine.ActionBlock(Machine.Step(old(Snapshot()), pre), a, polls)
    {
      fx := pre;
      if Menu[menuState.value] == Armed(a) {
        var outcome, cfx := RunCountdown(a, polls);
        fx := fx + cfx;
        if outcome.Cancelled? {
          actionCancel := true;
        }
        if actionCancel {
          menuState := Some(Machine.CancelIndex(a));
        } else {
          fx := fx + [Display(Blank, 0), Launch(CommandOf(a))];
          status := Exited(CommandOf(a));
        }
      }
    }

    /** The `if button_clicked` block after the button is let go. */
    method Release() returns (fx: seq<Effect>)
      requires Valid()
      modifies this
      ensures Valid()
      ensures Machine.Step(Snapshot(), fx) == Machine.Release(old(Snapshot()))
    {
      fx := [];
      if buttonClicked {
        actionCancel := false;
        buttonClicked := false;
        buttonDownStart := None;
        buttonDownLast := buttonDown;
        if menuState.None? || menuState.value == |Menu| - 1 {
          menuState := Some(0);
        } else {
          menuState := Some(menuState.value + 1);
        }
        fx := [Display(Menu[menuState.value], 0)];
      }
    }

    /** `while button.is_pressed`: one pass per sample while the button
        is held, stopping early on exit() or an exception. */
    method Hold(samples: seq<Machine.Sample>) returns (fx: seq<Effect>)
      requires Valid() && status.Running?
      modifies this
      ensures Valid()
      ensures Machine.Step(Snapshot(), fx) == Machine.Hold(old(Snapshot()), samples)
    {
      fx := [];
      var i := 0;
      while i < |samples| && status.Running?
        invariant 0 <= i <= |samples|
        invariant Valid()
        invariant var h := Machine.Hold(Snapshot(), samples[i..]);
          Machine.Hold(old(Snapshot()), samples) == Machine.Step(h.next, fx + h.fx)
        decreases |samples| - i
      {
        assert samples[i..][1..] == samples[i + 1..];
        ghost var before := Snapshot();
        var sfx := PressSample(samples[i].now, samples[i].polls);
        ghost var rest := Machine.Hold(Snapshot(), samples[i + 1..]);
        assert Machine.Hold(before, samples[i..]) == Machine.Step(rest.next, sfx + rest.fx);
        assert fx + (sfx + rest.fx) == (fx + sfx) + rest.fx;
        fx := fx + sfx;
        i := i + 1;
      }
      assert fx + [] == fx;
    }

    /** One iteration of `while True`. */
    method Iterate(round: Machine.Round) returns (fx: seq<Effect>)
      requires Valid() && status.Running?
      modifies this
      ensures Valid()
      ensures Machine.Step(Snapshot(), fx) == Machine.Iteration(old(Snapshot()), round)
    {
      fx := IdleTick(round.io);
      if !status.Running? {
        return;
      }
      var hfx := Hold(round.samples);
      fx := fx + hfx;
      if !status.Running? {
        return;
      }
      var rfx := Release();
      fx := fx + rfx;
    }

    /** The main loop over the given iterations, until exit() or an
        exception ends it. */
    method Run(rounds: seq<Machine.Round>) returns (fx: seq<Effect>)
      requires Valid()
      modifies this
      ensures Valid()
      ensures Machine.Step(Snapshot(), fx) == Machine.Run(old(Snapshot()), rounds)
    {
      fx := [];
      var i := 0;
      while i < |rounds| && status.Running?
        invariant 0 <= i <= |rounds|
        invariant Valid()
        invariant var r := Machine.Run(Snapshot(), rounds[i..]);
          Machine.Run(old(Snapshot()), rounds) == Machine.Step(r.next, fx + r.fx)
        decreases |rounds| - i
      {
        assert rounds[i..][1..] == rounds[i + 1..];
        ghost var before := Snapshot();
        var ifx := Iterate(rounds[i]);
        ghost var rest := Machine.Run(Snapshot(), rounds[i + 1..]);
        assert Machine.Run(before, rounds[i..]) == Machine.Step(rest.next, ifx + rest.fx);
        assert fx + (ifx + rest.fx) == (fx + ifx) + rest.fx;
        fx := fx + ifx;
        i := i + 1;
      }
      assert fx + [] == fx;
    }
  }
}

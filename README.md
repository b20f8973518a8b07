# OLED info controller — a verified model

`bin/oled-info.py` drives a small appliance with one push button, one LED
and a 128×32 OLED panel. Its main loop is a single-threaded state machine:

- an idle timer counts down in 0.1 s ticks and blanks the panel when it
  runs out;
- once the timer has run out, each pass scans the text of
  `/proc/diskstats` and pulses the LED while the disk is busy;
- while the button is held, the loop samples it every 50 ms;
- a click moves a cyclic five-entry menu (INFO, INFO2, CLOCK, REBOOT,
  SHUTDOWN) one step on;
- holding the button for more than two seconds on REBOOT or SHUTDOWN
  starts a six-step countdown that the button can cancel. If the
  countdown runs out, the program launches `sudo reboot now` or
  `sudo shutdown now` and exits.

This project models that loop in Dafny and proves what it does.

- `oled_base.dfy` (module `OledBase`) holds the shared vocabulary. It
  defines the screens, the observable effects, how a run ends (running,
  exited after a command, crashed on an exception) and the constants of
  lines 51–76. Every effect goes into a trace, in order: a drawn screen
  with its count, an LED command, a sleep or a command launch.
- `diskstats.dfy` (module `DiskStats`) models the diskstats scan.
  `str.split('\n')`, `str.split()` and `int()` are written out over
  strings. The scan's `for` loop, with its flag, its `break` and its
  `except IndexError`, is the method `ScanDiskStats`. That method is
  proved equal to the function `DiskActivity`, which is characterised
  by three if-and-only-if lemmas.
- `menu.dfy` (module `MenuCycle`) has the release rule for `menu_state`
  and the cycle it makes.
- `countdown.dfy` (module `Countdown`) models the `while count > 0`
  countdown. The method `RunCountdown` takes the button readings it polls
  as input. It is proved to return the outcome and the trace given by
  specification functions, and lemmas state what those functions draw,
  sleep and launch.
- `machine.dfy` (module `Machine`) is the loop as pure step functions over
  a value `State` that holds the globals:
  - `Tick` is the top of the loop;
  - `PressSample` is one pass of `while button.is_pressed`;
  - `Release` is the `if button_clicked` block;
  - `Hold`, `Iteration` and `Run` build the held-button loop, one loop
    iteration and a run of iterations from those.

  The properties of the loop are proved there.
- `controller.dfy` (module `OledInfo`) has the class `Controller`. Its
  fields are the program's globals, and its methods update them in place
  the way the loop does. Each method's postcondition says the new fields
  and the effects are exactly those of the matching `Machine` function
  applied to the old fields. So every `Machine` lemma holds of the
  controller.

Inputs replace everything the loop reads from the outside world:

- the diskstats text of each iteration (`Round.io`);
- the clock reading of each button sample, in integer microseconds
  (`Sample.now`);
- whether the button is held, given as the list of samples in each
  iteration;
- the button readings a countdown would poll (`Sample.polls`). A reading
  that is not supplied counts as released.

The idle timer is kept in integer tenths of a second:

- `ACTION_INITIAL_TIMEOUT` is 100;
- `ACTION_TIMEOUT` is 200;
- `ACTION_PRESS` is 2 000 000 µs.

In four places the code does something other than one might expect of
such a controller. The model follows the code:

- **A cancelled countdown does not go back to the interrupted screen.** It
  sets `menu_state` to the fixed index 0 (after REBOOT) or 1 (after
  SHUTDOWN). The release that follows then shows INFO2 or CLOCK
  (`CountdownEnds`, `PressRound`).
- **A malformed diskstats field is not skipped.** Only `IndexError` is
  caught, so a twelfth field that `int()` rejects raises `ValueError` and
  ends the program. This is the outcome `Crashed(BadDiskField(token))`
  (`ErrorIff`, `TickFacts`).
- **A long press is recognised while the button is still held,** on the
  first 50 ms sample after two seconds, and not at release
  (`CountdownStarts`).
- **A long press on the blank panel ends the program.** There, `menu_state`
  is None and `MENU[None]` raises `TypeError`. This is the outcome
  `Crashed(MenuIndexNone)`, and `IdleLongPressCrashes` shows that it is
  reachable.

## Model

| member | source | states |
|---|---|---|
| DiskStats.Split | bin/oled-info.py:212 | `io.split('\n')` yields at least one piece, and no piece contains a newline |
| DiskStats.JoinSplit | bin/oled-info.py:212 | rejoining the pieces of `io.split('\n')` with newlines gives back the diskstats text, so no character is lost or moved |
| DiskStats.SplitJoin | bin/oled-info.py:212 | splitting newline-free lines joined by newlines gives back exactly those lines |
| DiskStats.Fields | bin/oled-info.py:214 | every token of `l.split()` is nonempty and holds no whitespace |
| DiskStats.FieldsOfSpaced | bin/oled-info.py:214 | `l.split()` of whitespace-free tokens joined by spaces gives back those tokens, in order |
| DiskStats.FieldsOfPadded | bin/oled-info.py:214 | `l.split()` of whitespace-free tokens with any runs of whitespace before, between (nonempty) and after them, as in the padded columns of /proc/diskstats, gives back exactly those tokens, in order |
| DiskStats.PaddedFields | bin/oled-info.py:214 | every line is the tokens of `l.split()` with runs of whitespace around and between them: the split drops whitespace and nothing else |
| DiskStats.ParseInt | bin/oled-info.py:214 | `int(token)` succeeds exactly on an optional sign followed by digits with single underscores between them; otherwise it raises ValueError (None) |
| DiskStats.ParseIntZero | bin/oled-info.py:214 | a parsed field is zero, so the `if int(...)` test fails, exactly when every digit in it is '0' |
| DiskStats.ParseDecimal | bin/oled-info.py:214 | `int()` reads back the decimal text of every counter value |
| DiskStats.BusyLine | bin/oled-info.py:214-216 | a line makes the disk active exactly when it has at least IO_FIELD = 12 tokens and the 12th is an integer with a nonzero digit |
| DiskStats.ScanDiskStats | bin/oled-info.py:211-218 | the `for` loop, with its flag, its `break`, its skipped IndexError and its uncaught ValueError, returns the scan result `DiskActivity` of the lines |
| DiskStats.ActiveIff | bin/oled-info.py:212-216 | the disk counts as active exactly when some line is busy and every line before it is short or zero |
| DiskStats.InactiveIff | bin/oled-info.py:211-218 | the disk counts as idle exactly when every line is short (IndexError, skipped) or has a zero field |
| DiskStats.ErrorIff | bin/oled-info.py:213-218 | the scan raises ValueError exactly when some line's 12th field is not an integer and every line before it is short or zero |
| MenuCycle.NextMenu | bin/oled-info.py:294-299 | the release rule always yields a valid index into MENU: 0 from None, (i + 1) mod 5 from entry i, so 0 after the last entry |
| MenuCycle.ActionableEntries | bin/oled-info.py:69 | of the five entries, only index 3 (REBOOT) and index 4 (SHUTDOWN) carry a long-press action |
| MenuCycle.Advance | bin/oled-info.py:294-299 | any number of releases keeps menu_state None or a valid index |
| MenuCycle.AdvanceFromIdle | bin/oled-info.py:294-299 | from None, the k-th release leaves menu_state at (k - 1) mod 5 |
| MenuCycle.AdvanceFromEntry | bin/oled-info.py:294-299 | from entry i, k releases leave menu_state at (i + k) mod 5 |
| MenuCycle.AdvanceShift | bin/oled-info.py:294-299 | one release followed by k more is the same as k + 1 releases |
| MenuCycle.MenuPeriod | bin/oled-info.py:294-299 | five releases bring every entry back to itself |
| MenuCycle.ScreensFromIdle | bin/oled-info.py:294-300 | from None, the j-th screen drawn by successive releases is MENU[j mod 5] |
| MenuCycle.FirstSixPresses | bin/oled-info.py:294-300 | from None, six releases draw INFO, INFO2, CLOCK, REBOOT, SHUTDOWN and then INFO again |
| Countdown.FirstPress | bin/oled-info.py:249-255 | the index of the first pressed poll among the first n, or n if there is none; every poll before it reads released |
| Countdown.RunCountdown | bin/oled-info.py:247-255 | the `while count > 0` loop returns exactly the outcome `CountdownOutcome` and the trace `CountdownEffects` of its polls |
| Countdown.FramesCounts | bin/oled-info.py:249-252 | k countdown steps from c draw the counts c, c - 1, ..., c - k + 1, in order |
| Countdown.FramesSleep | bin/oled-info.py:249-252 | k countdown steps sleep k seconds |
| Countdown.FramesQuiet | bin/oled-info.py:249-252 | countdown steps neither blank the panel nor launch a command |
| Countdown.FramesShape | bin/oled-info.py:249-252 | every effect of a countdown step is a sleep or a frame of its own screen, and the first frame shows the starting count |
| Countdown.RunOutcome | bin/oled-info.py:249-255 | a countdown is cancelled exactly when one of its polls reads pressed; cancelled at step k means poll k was the first pressed one and k steps ran; otherwise all steps ran |
| Countdown.RunTrace | bin/oled-info.py:247-255 | a countdown that runs k steps draws n, ..., n - k + 1, sleeps k + 1 seconds (grace second included), and neither blanks the panel nor launches anything |
| Countdown.RunsOut | bin/oled-info.py:247-255 | with no press among its polls, a countdown from n is executed after drawing n, ..., 1 and sleeping n + 1 seconds |
| Countdown.TraceShape | bin/oled-info.py:247-255 | a countdown's trace holds only sleeps and frames of its own screen, and shows its starting count |
| Countdown.CountdownRunsOut | bin/oled-info.py:247-255 | left alone, the reboot or shutdown countdown draws 6, 5, 4, 3, 2, 1 and sleeps 7 s before it is executed |
| Countdown.CountdownCancelled | bin/oled-info.py:249-255 | a press first read after the step that shows 6 - k cancels at step k + 1; the last count shown is 6 - k, and k + 2 seconds have been slept |
| Machine.Tick | bin/oled-info.py:199-225 | the top of the loop never drives the timer below zero and leaves menu_state valid |
| Machine.TickFacts | bin/oled-info.py:199-207 | the two branches are exclusive. With the timer running, a tick lowers it by one tenth and leaves the LED alone; it blanks the panel and clears menu_state exactly on the tick from one tenth to zero. With the timer at zero, a tick leaves timer and menu alone, pulses the LED when the disk is busy, sets it to 25 % when idle, and stops on ValueError. Nothing else changes and nothing is launched |
| Machine.TickSleeps | bin/oled-info.py:200 | a tick of the running timer sleeps 100 ms |
| Machine.PressSample | bin/oled-info.py:227-282 | a sample keeps the timer non-negative and menu_state valid |
| Machine.ActionBlock | bin/oled-info.py:246-262 | one countdown block keeps menu_state valid, including the fixed index it sets on a cancel |
| Machine.ActionBlocks | bin/oled-info.py:245-279 | the REBOOT block and then the SHUTDOWN block keep menu_state valid |
| Machine.ActionBlocksOne | bin/oled-info.py:246-279 | at most one block runs: the one whose entry menu_state is on, and none on INFO, INFO2 or CLOCK |
| Machine.ArmedAt | bin/oled-info.py:246-263 | an action is armed exactly on an actionable entry, and it is that entry's action |
| Machine.ArmedBlock | bin/oled-info.py:246-262 | a block on its own entry appends its countdown trace. A cancel sets action_cancel and the fixed index; running out records exit with the action's command; nothing else changes |
| Machine.BlockEffectsFacts | bin/oled-info.py:247-262 | a countdown block never draws INFO and always draws a countdown frame. It launches a command exactly when the countdown runs out, once, and last, right after the blank panel |
| Machine.SampleCases | bin/oled-info.py:227-282 | a sample is one of four things: a click; a crash on MENU[None]; a long press on INFO, INFO2 or CLOCK, which only rearms; or a countdown block |
| Machine.SampleRearms | bin/oled-info.py:229-241 | every sample sets the timer to ACTION_TIMEOUT, records its own time, keeps the first sample's time as the press start, and leaves button_down_last alone |
| Machine.SampleWakes | bin/oled-info.py:236-237 | a sample draws INFO exactly when the timer had run out before it |
| Machine.ShortSampleClicks | bin/oled-info.py:280-282 | a sample that is not a long press sets the click flag and changes neither status, menu nor cancel; it draws no countdown and launches nothing |
| Machine.FirstSampleIsShort | bin/oled-info.py:230-241 | the first sample of a press has press_delta 0, so it is never a long press |
| Machine.CountdownStarts | bin/oled-info.py:245-263 | a countdown is drawn exactly on a sample held more than ACTION_PRESS, with action_cancel false and menu_state on REBOOT or SHUTDOWN |
| Machine.LongPressElsewhere | bin/oled-info.py:245-246 | the loop crashes with TypeError exactly on a long press while menu_state is None; a long press on INFO, INFO2 or CLOCK only rearms the timer and updates the press times |
| Machine.CountdownEnds | bin/oled-info.py:253-279 | a cancel sets action_cancel and menu index 0 after REBOOT, 1 after SHUTDOWN, and launches nothing. Running out ends the loop with that command, launched once as the last effect, after the blank panel |
| Machine.CancelledSample | bin/oled-info.py:253-257 | a cancelled countdown keeps the loop running, sets action_cancel and menu index 0 after REBOOT or 1 after SHUTDOWN, and launches nothing |
| Machine.ExecutedSample | bin/oled-info.py:256-279 | a countdown that runs out ends the loop with its command, launched exactly once as the last effect, right after the blank panel |
| Machine.CancelledPressOnlyClicks | bin/oled-info.py:245-282 | once action_cancel is set, later samples of the same press draw no countdown and only click |
| Machine.Release | bin/oled-info.py:284-300 | the release keeps menu_state a valid index |
| Machine.ReleaseAdvances | bin/oled-info.py:284-300 | a release after a click clears cancel, click and press start; moves the menu one step; draws that entry; records the last sample's time in button_down_last; and leaves the timer, button_down and the status as they were |
| Machine.Hold | bin/oled-info.py:227-282 | the held-button loop keeps the timer non-negative and menu_state valid |
| Machine.FirstSample | bin/oled-info.py:229-241 | the first sample from rest clicks and never fails; it starts holding with the press start at its own time and the menu it found |
| Machine.SampleHolds | bin/oled-info.py:227-282 | each later sample that leaves the loop running keeps the click pending, the press start, the timer at ACTION_TIMEOUT, and the menu as found unless a countdown was cancelled, which needs the press to have begun on REBOOT or SHUTDOWN and leaves that action's fixed index (0 or 1) |
| Machine.SampleLaunches | bin/oled-info.py:256-279 | a sample launches a command exactly when it exits, once, as its last effect |
| Machine.HoldKeeps | bin/oled-info.py:227-282 | the held-button loop keeps holding while it runs, and records the last sample's time |
| Machine.HoldFacts | bin/oled-info.py:227-282 | a press that leaves the loop running ends with a click pending, the first sample's time as press start, the timer at ACTION_TIMEOUT, the last sample's time recorded, and the menu unchanged unless a countdown was cancelled, which needs the press to have begun on REBOOT or SHUTDOWN and leaves that action's fixed index (0 or 1) |
| Machine.HoldLaunches | bin/oled-info.py:227-282 | the held-button loop launches a command exactly when it exits, once, as its last effect |
| Machine.Iteration | bin/oled-info.py:196-300 | an iteration of `while True` keeps the timer non-negative and menu_state valid |
| Machine.Run | bin/oled-info.py:196-300 | a run keeps the timer non-negative and menu_state valid |
| Machine.IterationLaunches | bin/oled-info.py:196-300 | an iteration launches a command exactly when it ends the program by exit(), once, as its last effect |
| Machine.RunLaunches | bin/oled-info.py:196-300 | a whole run launches at most one command: one exactly when it ends by exit(), and that launch is the last thing it does |
| Machine.IterationRests | bin/oled-info.py:284-293 | an iteration that leaves the loop running leaves no click, cancel or press start pending, so a cancel cannot leak into the next press |
| Machine.PressRound | bin/oled-info.py:227-300 | a completed press without a cancel advances the menu one step from where it was after the tick; a press whose countdown was cancelled began on REBOOT and ends on INFO2, or began on SHUTDOWN and ends on CLOCK. It draws the new entry last, and leaves the timer at ACTION_TIMEOUT and the last sample's time in button_down_last |
| Machine.ClickIteration | bin/oled-info.py:199-300 | one click while the timer runs moves the menu one step and rearms the timer; the trace is the tick's sleep, the sample's sleep and the new entry |
| Machine.ClickRun | bin/oled-info.py:196-300 | k clicks while the timer runs move the menu k steps and leave the controller running and at rest |
| Machine.ClicksFromIdle | bin/oled-info.py:196-300 | from start-up (menu_state None, timer still running), after k clicks menu_state is (k - 1) mod 5: INFO, INFO2, CLOCK, REBOOT, SHUTDOWN, INFO, ... |
| Machine.TimeoutRun | bin/oled-info.py:199-205 | k iterations without a press lower the timer from T >= k to T - k and sleep k tenths; they blank the panel and clear menu_state exactly when the timer reaches zero; nothing else changes |
| Machine.BlanksAfterTimeout | bin/oled-info.py:199-205 | after a press the panel stays on for 199 quiet ticks; the 200th blanks it and clears the menu, 20 s after the press |
| Machine.IdleLongPressCrashes | bin/oled-info.py:245-246 | holding the button past ACTION_PRESS on the blank panel ends the loop with TypeError on MENU[None], both at start-up while the timer runs and after a timeout once the diskstats scan of the tick succeeds |
| OledInfo.Controller.constructor | bin/oled-info.py:55-76 | the globals as the loop starts: timer ACTION_INITIAL_TIMEOUT, no cancel, no menu entry, no press times, no click |
| OledInfo.Controller.IdleTick | bin/oled-info.py:199-225 | updates the globals in place exactly as `Machine.Tick` does, with the same effects |
| OledInfo.Controller.PressSample | bin/oled-info.py:227-282 | updates the globals in place exactly as `Machine.PressSample` does, with the same effects |
| OledInfo.Controller.ActionBlock | bin/oled-info.py:246-279 | one countdown block, run in place, as `Machine.ActionBlock` |
| OledInfo.Controller.Release | bin/oled-info.py:284-300 | the release block, in place, as `Machine.Release` |
| OledInfo.Controller.Hold | bin/oled-info.py:227-282 | the `while button.is_pressed` loop, in place, as `Machine.Hold` |
| OledInfo.Controller.Iterate | bin/oled-info.py:196-300 | one iteration of `while True`, in place, as `Machine.Iteration` |
| OledInfo.Controller.Run | bin/oled-info.py:196-300 | successive iterations until exit() or an exception, in place, as `Machine.Run` |

## Left out

- Pixel rendering and the panel driver in `oled_display` (lines 113–186).
  A drawn screen is recorded only as a `Display(screen, count)` effect.
- The statistics that INFO, INFO2 and CLOCK show (lines 124–170). They
  come from shell commands, psutil and the local clock; these are foreign
  calls and only decorate the screens.
- GPIO, I2C, font and logging setup (lines 27–48, 78–110), and the
  `logging.debug` calls in the loop. They have no effect on the state.
- The start-up splash (lines 188–193): BOOTUP for ten seconds, then a
  blank panel and the resting LED. The model starts at the main loop,
  where `action_time` is still `ACTION_INITIAL_TIMEOUT`.
- Real sleeps and `datetime.now()`. Sleeps are recorded as `Sleep`
  effects. The clock is an input, one integer microsecond reading per
  sample.
- Binary floating point in `action_time -= 0.1`. The timer is kept in
  exact tenths, so the extra tick that rounding can add is not modelled.
- `subprocess.Popen` and `exit()`. They are recorded as a `Launch`
  effect followed by the terminal status `Exited(command)`. The command
  itself runs outside the program.
- Opening and reading `/proc/diskstats`. Its text is an input of each
  iteration. An error from `open()` is not modelled.
- ParseInt: does not model the limit on the length of decimal strings
  that CPython 3.11 and later (and the patched 3.7–3.10 releases) impose:
  there `int()` raises ValueError on more than 4300 digits, and the model
  accepts such a token. Which interpreter runs the program is not known,
  and no diskstats counter comes near that length.
- `str.split()` and `int()` outside ASCII. Whitespace is the ASCII
  characters that `str.split()` splits on, and digits are '0'–'9'.
  Unicode spaces and non-ASCII digits, which Python also accepts, are not
  modelled.
- The physical button. Whether it is held is given as the samples of
  each iteration. The readings a countdown would poll are given per
  sample; a missing reading counts as released.
- The infinite `while True` loop. It is modelled on any finite sequence
  of iterations.

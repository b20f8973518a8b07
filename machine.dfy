/** The main loop of bin/oled-info.py as a pure state machine: one function
    per part of a loop iteration (the idle tick, one sample of a held
    button, the release), the held-button loop, one iteration, and a run of
    iterations. The Controller class is proved against these functions;
    the properties of the loop are proved here. */
module Machine {
  import opened OledBase
  import opened DiskStats
  import opened MenuCycle
  import opened Countdown

  /** The module-level globals the loop updates. */
  datatype State = State(
    actionTime: int,         // action_time, in tenths of a second
    cancel: bool,            // action_cancel
    menu: Option<nat>,       // menu_state
    downStart: Option<int>,  // button_down_start, in microseconds
    down: Option<int>,       // button_down: time of the latest sample
    downLast: Option<int>,   // button_down_last
    clicked: bool,           // button_clicked
    status: Status)

  /** A new state and the effects that led to it, in order. */
  datatype Step = Step(next: State, fx: seq<Effect>)

  /** One pass of the held-button loop: the clock reading, and what the
      button polls would read if a countdown ran during this pass. */
  datatype Sample = Sample(now: int, polls: seq<bool>)

  /** One iteration of the main loop: the diskstats text the idle branch
      would read, and the samples taken while the button is held. */
  datatype Round = Round(io: string, samples: seq<Sample>)

  /** The timer never goes below zero and menu_state is None or a valid index. */
  predicate Inv(s: State)
  {
    s.actionTime >= 0 && ValidMenu(s.menu)
  }

  /** Between presses: no press start recorded, no click pending, no cancel. */
  predicate AtRest(s: State)
  {
    s.downStart.None? && !s.clicked && !s.cancel
  }

  /** The globals when the loop first starts, after the start-up splash. */
  const Start: State := State(ActionInitialTimeout, false, None, None, None, None, false, Running)

  /** The menu_state a cancelled countdown leaves behind: a fixed index. */
  function CancelIndex(a: Action): nat
  {
    match a
    case RebootAction => 0
    case ShutdownAction => 1
  }

  // ---------------------------------------------------------------------
  // the idle tick

  /** The `if action_time > 0` at the top of the loop: count the timer
      down by a tenth and blank the panel when it runs out, or, once it
      has run out, scan diskstats and drive the LED. */
  function Tick(s: State, io: string): (r: Step)
    requires Inv(s) && s.status.Running?
    ensures Inv(r.next)
  {
    if s.actionTime > 0 then
      var t := s.actionTime - 1;
      if t <= 0 then Step(s.(actionTime := t, menu := None), [Sleep(100), Display(Blank, 0)])
      else Step(s.(actionTime := t), [Sleep(100)])
    else
      match DiskActivity(Lines(io))
      case ValueError(tok) => Step(s.(status := Crashed(BadDiskField(tok))), [])
      case Ok(active) =>
        Step(s, [if active then LedPulse(100, 100) else LedLevel(LedResting), Sleep(400)])
  }

  /** While the timer runs, a tick lowers it by one tenth and touches
      neither the LED nor diskstats; the panel is blanked and menu_state
      cleared on the tick that takes it from one tenth to zero, and on no
      other. Once the timer is at zero, a tick leaves timer and menu alone
      and drives the LED from the scan, or stops the loop on ValueError. */
  lemma TickFacts(s: State, io: string)
    requires Inv(s) && s.status.Running?
    ensures var r := Tick(s, io);
      && Blanks(r.fx) == (if s.actionTime == 1 then 1 else 0)
      && Launches(r.fx) == 0
      && (s.actionTime > 0 ==>
            && r.next.actionTime == s.actionTime - 1
            && r.next.menu == (if s.actionTime == 1 then None else s.menu)
            && r.next.status == Running
            && !TouchesLed(r.fx))
      && (s.actionTime == 0 ==>
            && r.next.actionTime == 0
            && r.next.menu == s.menu
            && (r.next.status.Running? <==> DiskActivity(Lines(io)).Ok?)
            && (DiskActivity(Lines(io)) == Ok(true) ==> r.fx[0] == LedPulse(100, 100))
            && (DiskActivity(Lines(io)) == Ok(false) ==> r.fx[0] == LedLevel(LedResting)))
      && r.next.(actionTime := s.actionTime, menu := s.menu, status := s.status) == s
  {
    var r := Tick(s, io);
    CountIn(r.fx, Launch(RebootNow));
    CountIn(r.fx, Launch(ShutdownNow));
    if s.actionTime == 1 {
      assert r.fx == [Sleep(100), Display(Blank, 0)];
      TimeoutBlank();
    } else {
      CountIn(r.fx, Display(Blank, 0));
      if s.actionTime > 0 {
        assert r.fx == [Sleep(100)];
      } else {
        assert Display(Blank, 0) !in r.fx;
      }
    }
    if s.actionTime > 0 {
      assert forall i :: 0 <= i < |r.fx| ==> !r.fx[i].LedPulse? && !r.fx[i].LedLevel?;
    }
  }

  /** The tick that runs the timer out blanks the panel once. */
  lemma TimeoutBlank()
    ensures Blanks([Sleep(100), Display(Blank, 0)]) == 1
  {
    var t := [Sleep(100), Display(Blank, 0)];
    assert t[1..] == [Display(Blank, 0)];
    assert t[1..][1..] == [];
  }

  // ---------------------------------------------------------------------
  // one sample of a held button

  /** How long the press has lasted at a sample taken at `now`. */
  function Held(s: State, now: int): int
  {
    if s.downStart.None? then 0 else now - s.downStart.value
  }

  /** The long-press test: not cancelled in this press, and held strictly
      longer than ACTION_PRESS. */
  predicate LongPress(s: State, now: int)
  {
    !s.cancel && Held(s, now) > ActionPress
  }

  /** What a countdown for `a` adds to the trace: its frames and sleeps,
      then, if it ran out, the blank panel and the command. */
  function BlockEffects(a: Action, polls: seq<bool>): seq<Effect>
  {
    CountdownEffects(a, polls)
    + (if CountdownOutcome(a, polls).Executed? then [Display(Blank, 0), Launch(CommandOf(a))] else [])
  }

  /** One `if MENU[menu_state] == ...` block: when the menu is on the
      action's entry, run its countdown; a cancel sets action_cancel and
      the fixed menu index, running out blanks the panel, launches the
      command and exits. */
  function ActionBlock(st: Step, a: Action, polls: seq<bool>): (r: Step)
    requires Inv(st.next) && st.next.menu.Some?
    ensures Inv(r.next)
  {
    if Menu[st.next.menu.value] != Armed(a) then st
    else if CountdownOutcome(a, polls).Cancelled? then
      Step(st.next.(cancel := true, menu := Some(CancelIndex(a))), st.fx + BlockEffects(a, polls))
    else
      Step(st.next.(status := Exited(CommandOf(a))), st.fx + BlockEffects(a, polls))
  }

  /** The two blocks in turn, the second only if the first did not exit. */
  function ActionBlocks(st: Step, polls: seq<bool>): (r: Step)
    requires Inv(st.next) && st.next.menu.Some? && st.next.status.Running?
    ensures Inv(r.next)
  {
    var r1 := ActionBlock(st, RebootAction, polls);
    if r1.next.status.Running? then ActionBlock(r1, ShutdownAction, polls) else r1
  }

  /** One pass of `while button.is_pressed`. */
  function PressSample(s: State, now: int, polls: seq<bool>): (r: Step)
    requires Inv(s) && s.status.Running?
    ensures Inv(r.next)
  {
    var start := if s.downStart.None? then now else s.downStart.value;
    var s1 := s.(down := Some(now), downStart := Some(start), actionTime := ActionTimeout);
    var fx := [Sleep(50)] + (if s.actionTime <= 0 then [Display(Info, 0)] else []);
    if !s.cancel && now - start > ActionPress then
      if s.menu.None? then Step(s1.(status := Crashed(MenuIndexNone)), fx)
      else ActionBlocks(Step(s1, fx), polls)
    else
      Step(s1.(clicked := true), fx)
  }

  /** The effects a countdown adds: never INFO, always a countdown frame,
      and one launch, as the very last effect after the blank panel,
      exactly when it runs out. */
  lemma BlockEffectsFacts(a: Action, polls: seq<bool>)
    ensures var e := BlockEffects(a, polls);
      && Display(Info, 0) !in e
      && ShowsCountdown(e)
      && Launches(e) == (if CountdownOutcome(a, polls).Executed? then 1 else 0)
      && (CountdownOutcome(a, polls).Executed? ==>
            |e| >= 2 && e[|e| - 2] == Display(Blank, 0) && e[|e| - 1] == Launch(CommandOf(a)))
  {
    var n := Steps(a);
    var tr := CountdownEffects(a, polls);
    var tail := if CountdownOutcome(a, polls).Executed? then [Display(Blank, 0), Launch(CommandOf(a))] else [];
    assert BlockEffects(a, polls) == tr + tail;
    TraceShape(Frame(a), polls, n);
    RunTrace(Frame(a), polls, n);
    LaunchesAppend(tr, tail);
    LaunchOnce(CommandOf(a));
    assert Launches([]) == 0;
    assert n > 0;
    var i :| 0 <= i < |tr| && tr[i] == Display(Frame(a), n);
    assert (tr + tail)[i] == tr[i];
  }

  /** The blank panel and the command launch the command once. */
  lemma LaunchOnce(c: Command)
    ensures Launches([Display(Blank, 0), Launch(c)]) == 1
  {
    var t := [Display(Blank, 0), Launch(c)];
    assert t[1..] == [Launch(c)];
    assert t[1..][1..] == [];
    assert Count(t, Launch(RebootNow)) == Count(t[1..], Launch(RebootNow));
    assert Count(t, Launch(ShutdownNow)) == Count(t[1..], Launch(ShutdownNow));
  }

  /** At most one block runs: the one whose entry the menu is on. */
  lemma ActionBlocksOne(st: Step, polls: seq<bool>)
    requires Inv(st.next) && st.next.menu.Some? && st.next.status.Running?
    ensures var m := Menu[st.next.menu.value];
      ActionBlocks(st, polls) ==
        if m == Reboot then ActionBlock(st, RebootAction, polls)
        else if m == Shutdown then ActionBlock(st, ShutdownAction, polls)
        else st
  {
  }

  /** The action whose block runs when the menu is on entry m, if any. */
  function ArmedAt(m: nat): (r: Option<Action>)
    requires m < |Menu|
    ensures r.Some? <==> IsActionable(Menu[m])
    ensures r.Some? ==> Menu[m] == Armed(r.value)
  {
    if Menu[m] == Reboot then Some(RebootAction)
    else if Menu[m] == Shutdown then Some(ShutdownAction)
    else None
  }

  /** A block on its own entry appends the countdown's effects and changes
      only the cancel flag, the menu and the status. */
  lemma ArmedBlock(st: Step, a: Action, polls: seq<bool>)
    requires Inv(st.next) && st.next.menu.Some? && Menu[st.next.menu.value] == Armed(a)
    ensures var r := ActionBlock(st, a, polls);
      && r.fx == st.fx + BlockEffects(a, polls)
      && r.next.(cancel := st.next.cancel, menu := st.next.menu, status := st.next.status) == st.next
      && (CountdownOutcome(a, polls).Cancelled? ==>
            r.next.cancel && r.next.menu == Some(CancelIndex(a)) && r.next.status == st.next.status)
      && (CountdownOutcome(a, polls).Executed? ==>
            r.next.status == Exited(CommandOf(a)) && r.next.menu == st.next.menu && r.next.cancel == st.next.cancel)
  {
  }

  /** The effects every sample starts with: the 50 ms sleep, and INFO when
      the timer had run out. */
  function SamplePrefix(s: State): seq<Effect>
  {
    [Sleep(50)] + (if s.actionTime <= 0 then [Display(Info, 0)] else [])
  }

  /** The globals right after a sample's bookkeeping, before any action. */
  function Rearmed(s: State, now: int): State
  {
    s.(down := Some(now), downStart := Some(if s.downStart.None? then now else s.downStart.value),
       actionTime := ActionTimeout)
  }

  /** The four ways a sample can go: a click, a crash on MENU[None], a long
      press on an entry without an action, or a countdown block. */
  lemma SampleCases(s: State, now: int, polls: seq<bool>)
    requires Inv(s) && s.status.Running?
    ensures var r := PressSample(s, now, polls);
      && (!LongPress(s, now) ==> r == Step(Rearmed(s, now).(clicked := true), SamplePrefix(s)))
      && (LongPress(s, now) && s.menu.None? ==>
            r == Step(Rearmed(s, now).(status := Crashed(MenuIndexNone)), SamplePrefix(s)))
      && (LongPress(s, now) && s.menu.Some? && ArmedAt(s.menu.value).None? ==>
            r == Step(Rearmed(s, now), SamplePrefix(s)))
      && (LongPress(s, now) && s.menu.Some? && ArmedAt(s.menu.value).Some? ==>
            r == ActionBlock(Step(Rearmed(s, now), SamplePrefix(s)), ArmedAt(s.menu.value).value, polls))
  {
    if LongPress(s, now) && s.menu.Some? {
      ActionBlocksOne(Step(Rearmed(s, now), SamplePrefix(s)), polls);
    }
  }

  /** Every sample rearms the timer to ACTION_TIMEOUT and records the
      press start (the first sample's time) and its own time. */
  lemma SampleRearms(s: State, now: int, polls: seq<bool>)
    requires Inv(s) && s.status.Running?
    ensures var r := PressSample(s, now, polls);
      && r.next.actionTime == ActionTimeout
      && r.next.down == Some(now)
      && r.next.downStart == Some(if s.downStart.None? then now else s.downStart.value)
      && r.next.downLast == s.downLast
  {
    SampleCases(s, now, polls);
    if LongPress(s, now) && s.menu.Some? && ArmedAt(s.menu.value).Some? {
      ArmedBlock(Step(Rearmed(s, now), SamplePrefix(s)), ArmedAt(s.menu.value).value, polls);
    }
  }

  /** A sample draws INFO exactly when the timer had run out before it. */
  lemma SampleWakes(s: State, now: int, polls: seq<bool>)
    requires Inv(s) && s.status.Running?
    ensures (Display(Info, 0) in PressSample(s, now, polls).fx) <==> s.actionTime <= 0
  {
    SampleCases(s, now, polls);
    if LongPress(s, now) && s.menu.Some? && ArmedAt(s.menu.value).Some? {
      var a := ArmedAt(s.menu.value).value;
      ArmedBlock(Step(Rearmed(s, now), SamplePrefix(s)), a, polls);
      BlockEffectsFacts(a, polls);
    }
  }

  /** A sample that is not a long press sets the click flag and changes
      nothing else but the timer and the press times. In particular the
      first sample of a press (held zero microseconds) is always one. */
  lemma ShortSampleClicks(s: State, now: int, polls: seq<bool>)
    requires Inv(s) && s.status.Running?
    requires !LongPress(s, now)
    ensures var r := PressSample(s, now, polls);
      && r.next.clicked
      && r.next.status == Running
      && r.next.menu == s.menu
      && r.next.cancel == s.cancel
      && !ShowsCountdown(r.fx)
      && Launches(r.fx) == 0
  {
    var r := PressSample(s, now, polls);
    assert forall i :: 0 <= i < |r.fx| ==> r.fx[i] == Sleep(50) || r.fx[i] == Display(Info, 0);
    CountIn(r.fx, Launch(RebootNow));
    CountIn(r.fx, Launch(ShutdownNow));
  }

  lemma FirstSampleIsShort(s: State, now: int)
    requires s.downStart.None?
    ensures !LongPress(s, now)
  {
  }

  /** A countdown starts exactly on a long press while the menu is on
      REBOOT or SHUTDOWN. */
  lemma CountdownStarts(s: State, now: int, polls: seq<bool>)
    requires Inv(s) && s.status.Running?
    ensures ShowsCountdown(PressSample(s, now, polls).fx)
        <==> LongPress(s, now) && s.menu.Some? && IsActionable(Menu[s.menu.value])
  {
    var r := PressSample(s, now, polls);
    var pre := SamplePrefix(s);
    SampleCases(s, now, polls);
    assert forall i :: 0 <= i < |pre| ==> pre[i] == Sleep(50) || pre[i] == Display(Info, 0);
    if LongPress(s, now) && s.menu.Some? && ArmedAt(s.menu.value).Some? {
      var a := ArmedAt(s.menu.value).value;
      ArmedBlock(Step(Rearmed(s, now), pre), a, polls);
      BlockEffectsFacts(a, polls);
      var e := BlockEffects(a, polls);
      var i :| 0 <= i < |e| && e[i].Display? && (e[i].screen == Rebooting || e[i].screen == ShuttingDown);
      assert r.fx[|pre| + i] == e[i];
    } else {
      assert r.fx == pre;
    }
  }

  /** A long press while menu_state is None raises TypeError on MENU[None];
      a long press on INFO, INFO2 or CLOCK does nothing but rearm the timer
      and the press times. */
  lemma LongPressElsewhere(s: State, now: int, polls: seq<bool>)
    requires Inv(s) && s.status.Running?
    ensures var r := PressSample(s, now, polls);
      r.next.status == Crashed(MenuIndexNone) <==> LongPress(s, now) && s.menu.None?
    ensures var r := PressSample(s, now, polls);
      LongPress(s, now) && s.menu.Some? && !IsActionable(Menu[s.menu.value]) ==>
        && r.next.(down := s.down, downStart := s.downStart, actionTime := s.actionTime) == s
        && r.fx == SamplePrefix(s)
  {
    SampleCases(s, now, polls);
    if LongPress(s, now) && s.menu.Some? && ArmedAt(s.menu.value).Some? {
      var a := ArmedAt(s.menu.value).value;
      ArmedBlock(Step(Rearmed(s, now), SamplePrefix(s)), a, polls);
    }
  }

  /** A countdown that is cancelled sets action_cancel and moves menu_state
      to the fixed index 0 (after REBOOT) or 1 (after SHUTDOWN); one that
      runs out blanks the panel and launches its command as the very last
      effect, once, and the loop ends. */
  lemma CountdownEnds(s: State, now: int, polls: seq<bool>)
    requires Inv(s) && s.status.Running?
    requires LongPress(s, now) && s.menu.Some? && IsActionable(Menu[s.menu.value])
    ensures var r := PressSample(s, now, polls);
      var a := ArmedAt(s.menu.value).value;
      && (CountdownOutcome(a, polls).Cancelled? ==>
            && r.next.status == Running
            && r.next.cancel
            && r.next.menu == Some(if a == RebootAction then 0 else 1)
            && Launches(r.fx) == 0)
      && (CountdownOutcome(a, polls).Executed? ==>
            && r.next.status == Exited(CommandOf(a))
            && Launches(r.fx) == 1
            && |r.fx| >= 2
            && r.fx[|r.fx| - 2] == Display(Blank, 0)
            && r.fx[|r.fx| - 1] == Launch(CommandOf(a)))
  {
    var a := ArmedAt(s.menu.value).value;
    BlockSample(s, now, polls);
    if CountdownOutcome(a, polls).Cancelled? {
      CancelledSample(s, now, polls);
    } else {
      ExecutedSample(s, now, polls);
    }
  }

  /** A sample that runs a countdown appends the countdown block's effects
      to the sample's own, and launches what the block launches. */
  lemma BlockSample(s: State, now: int, polls: seq<bool>)
    requires Inv(s) && s.status.Running?
    requires LongPress(s, now) && s.menu.Some? && IsActionable(Menu[s.menu.value])
    ensures var a := ArmedAt(s.menu.value).value;
      var r := PressSample(s, now, polls);
      && r.fx == SamplePrefix(s) + BlockEffects(a, polls)
      && Launches(r.fx) == Launches(BlockEffects(a, polls))
      && r == ActionBlock(Step(Rearmed(s, now), SamplePrefix(s)), a, polls)
  {
    var a := ArmedAt(s.menu.value).value;
    var pre := SamplePrefix(s);
    SampleCases(s, now, polls);
    ArmedBlock(Step(Rearmed(s, now), pre), a, polls);
    LaunchesAppend(pre, BlockEffects(a, polls));
    assert forall i :: 0 <= i < |pre| ==> pre[i] == Sleep(50) || pre[i] == Display(Info, 0);
    CountIn(pre, Launch(RebootNow));
    CountIn(pre, Launch(ShutdownNow));
  }

  lemma CancelledSample(s: State, now: int, polls: seq<bool>)
    requires Inv(s) && s.status.Running?
    requires LongPress(s, now) && s.menu.Some? && IsActionable(Menu[s.menu.value])
    requires CountdownOutcome(ArmedAt(s.menu.value).value, polls).Cancelled?
    ensures var r := PressSample(s, now, polls);
      && r.next.status == Running
      && r.next.cancel
      && r.next.menu == Some(if ArmedAt(s.menu.value).value == RebootAction then 0 else 1)
      && Launches(r.fx) == 0
  {
    var a := ArmedAt(s.menu.value).value;
    BlockSample(s, now, polls);
    ArmedBlock(Step(Rearmed(s, now), SamplePrefix(s)), a, polls);
    BlockEffectsFacts(a, polls);
  }

  lemma ExecutedSample(s: State, now: int, polls: seq<bool>)
    requires Inv(s) && s.status.Running?
    requires LongPress(s, now) && s.menu.Some? && IsActionable(Menu[s.menu.value])
    requires CountdownOutcome(ArmedAt(s.menu.value).value, polls).Executed?
    ensures var a := ArmedAt(s.menu.value).value;
      var r := PressSample(s, now, polls);
      && r.next.status == Exited(CommandOf(a))
      && Launches(r.fx) == 1
      && |r.fx| >= 2
      && r.fx[|r.fx| - 2] == Display(Blank, 0)
      && r.fx[|r.fx| - 1] == Launch(CommandOf(a))
  {
    var a := ArmedAt(s.menu.value).value;
    var r := PressSample(s, now, polls);
    var e := BlockEffects(a, polls);
    BlockSample(s, now, polls);
    ArmedBlock(Step(Rearmed(s, now), SamplePrefix(s)), a, polls);
    BlockEffectsFacts(a, polls);
    assert r.fx[|r.fx| - 1] == e[|e| - 1];
    assert r.fx[|r.fx| - 2] == e[|e| - 2];
  }

  /** Once a countdown has been cancelled, no further countdown can start
      in the same press: every later sample only clicks. */
  lemma CancelledPressOnlyClicks(s: State, now: int, polls: seq<bool>)
    requires Inv(s) && s.status.Running? && s.cancel
    ensures var r := PressSample(s, now, polls);
      && !ShowsCountdown(r.fx)
      && r.next.clicked && r.next.cancel
      && r.next.menu == s.menu
      && r.next.status == Running
  {
    ShortSampleClicks(s, now, polls);
  }

  // ---------------------------------------------------------------------
  // the release

  /** The `if button_clicked` block after the held-button loop: clear the
      flags and the press start, keep the last sample time, advance the
      menu and draw the new entry. Without a pending click, nothing. */
  function Release(s: State): (r: Step)
    requires Inv(s)
    ensures Inv(r.next)
  {
    if s.clicked then
      var m := NextMenu(s.menu);
      Step(s.(cancel := false, clicked := false, downStart := None, downLast := s.down, menu := Some(m)),
           [Display(Menu[m], 0)])
    else Step(s, [])
  }

  /** A release after a click leaves the controller at rest (a cancel
      cannot leak into the next press), with the menu one step on and that
      entry drawn; the timer, button_down and the status stay as they were. */
  lemma ReleaseAdvances(s: State)
    requires Inv(s) && s.clicked
    ensures var r := Release(s);
      && AtRest(r.next)
      && r.next == s.(cancel := false, clicked := false, downStart := None, downLast := s.down,
                      menu := r.next.menu)
      && r.next.menu == Some((if s.menu.None? then 0 else s.menu.value + 1) % |Menu|)
      && r.fx == [Display(Menu[r.next.menu.value], 0)]
      && r.next.downLast == s.down
      && r.next.actionTime == s.actionTime
  {
  }

  // ---------------------------------------------------------------------
  // the held-button loop, one iteration, a run

  /** `while button.is_pressed`, one pass per sample; exit() and an
      exception end it early. */
  function Hold(s: State, samples: seq<Sample>): (r: Step)
    requires Inv(s)
    ensures Inv(r.next)
    decreases |samples|
  {
    if samples == [] || !s.status.Running? then Step(s, [])
    else
      var st := PressSample(s, samples[0].now, samples[0].polls);
      var rest := Hold(st.next, samples[1..]);
      Step(rest.next, st.fx + rest.fx)
  }

  /** While the button stays held: the click is pending, the press start is
      the first sample's time, the timer is at ACTION_TIMEOUT, and menu_state
      is the one the press began with unless a countdown was cancelled; then
      the press began on REBOOT or SHUTDOWN and menu_state is that action's
      fixed cancel index. */
  predicate Holding(s: State, start: int, m0: Option<nat>)
  {
    && s.clicked
    && s.downStart == Some(start)
    && s.actionTime == ActionTimeout
    && (s.cancel ==>
          m0.Some? && m0.value < |Menu| && ArmedAt(m0.value).Some?
          && s.menu == Some(CancelIndex(ArmedAt(m0.value).value)))
    && (!s.cancel ==> s.menu == m0)
  }

  /** The first sample of a press is a click: it starts holding with the
      menu it found, and it cannot fail. */
  lemma FirstSample(s: State, now: int, polls: seq<bool>)
    requires Inv(s) && s.status.Running? && AtRest(s)
    ensures var r := PressSample(s, now, polls);
      && r.next.status == Running
      && Holding(r.next, now, s.menu)
      && r.next.down == Some(now)
      && r.fx == SamplePrefix(s)
  {
    FirstSampleIsShort(s, now);
    SampleCases(s, now, polls);
  }

  /** Every later sample that leaves the loop running keeps it holding. */
  lemma SampleHolds(s: State, now: int, polls: seq<bool>, start: int, m0: Option<nat>)
    requires Inv(s) && s.status.Running? && Holding(s, start, m0)
    ensures var r := PressSample(s, now, polls);
      r.next.status.Running? ==> Holding(r.next, start, m0) && r.next.down == Some(now)
  {
    SampleCases(s, now, polls);
    SampleRearms(s, now, polls);
    if LongPress(s, now) && s.menu.Some? && ArmedAt(s.menu.value).Some? {
      var a := ArmedAt(s.menu.value).value;
      ArmedBlock(Step(Rearmed(s, now), SamplePrefix(s)), a, polls);
    }
  }

  /** A sample launches a command exactly when it ends the loop by exit(),
      and then the launch is its last effect. */
  lemma SampleLaunches(s: State, now: int, polls: seq<bool>)
    requires Inv(s) && s.status.Running?
    ensures var r := PressSample(s, now, polls);
      && Launches(r.fx) == (if r.next.status.Exited? then 1 else 0)
      && (r.next.status.Exited? ==> |r.fx| > 0 && r.fx[|r.fx| - 1] == Launch(r.next.status.command))
  {
    var pre := SamplePrefix(s);
    SampleCases(s, now, polls);
    if LongPress(s, now) && s.menu.Some? && ArmedAt(s.menu.value).Some? {
      CountdownEnds(s, now, polls);
    } else {
      assert forall i :: 0 <= i < |pre| ==> pre[i] == Sleep(50) || pre[i] == Display(Info, 0);
      CountIn(pre, Launch(RebootNow));
      CountIn(pre, Launch(ShutdownNow));
    }
  }

  /** The held-button loop keeps holding as long as it runs; the last
      sample's time is the latest button_down. */
  lemma {:induction false} HoldKeeps(s: State, samples: seq<Sample>, start: int, m0: Option<nat>)
    requires Inv(s) && s.status.Running? && Holding(s, start, m0)
    ensures var h := Hold(s, samples);
      && (h.next.status.Running? ==> Holding(h.next, start, m0))
      && (h.next.status.Running? && samples != [] ==> h.next.down == Some(samples[|samples| - 1].now))
    decreases |samples|
  {
    if samples != [] {
      var st := PressSample(s, samples[0].now, samples[0].polls);
      SampleHolds(s, samples[0].now, samples[0].polls, start, m0);
      if st.next.status.Running? {
        HoldKeeps(st.next, samples[1..], start, m0);
      }
    }
  }

  /** A press of at least one sample that leaves the loop running ends with
      a click pending, the press start at the first sample, the timer at
      ACTION_TIMEOUT and the latest sample's time recorded; menu_state is
      unchanged unless a countdown was cancelled, which leaves the fixed
      index of the action the press began on. */
  lemma HoldFacts(s: State, samples: seq<Sample>)
    requires Inv(s) && s.status.Running? && AtRest(s) && samples != []
    ensures var h := Hold(s, samples);
      h.next.status.Running? ==>
        && Holding(h.next, samples[0].now, s.menu)
        && h.next.down == Some(samples[|samples| - 1].now)
  {
    var st := PressSample(s, samples[0].now, samples[0].polls);
    FirstSample(s, samples[0].now, samples[0].polls);
    HoldKeeps(st.next, samples[1..], samples[0].now, s.menu);
    if |samples| == 1 {
      assert Hold(st.next, samples[1..]).next == st.next;
    } else {
      assert samples[1..][|samples[1..]| - 1] == samples[|samples| - 1];
    }
  }

  /** The held-button loop launches a command exactly when it ends by
      exit(), once, as its very last effect. */
  lemma {:induction false} HoldLaunches(s: State, samples: seq<Sample>)
    requires Inv(s) && s.status.Running?
    ensures var h := Hold(s, samples);
      && Launches(h.fx) == (if h.next.status.Exited? then 1 else 0)
      && (h.next.status.Exited? ==> |h.fx| > 0 && h.fx[|h.fx| - 1] == Launch(h.next.status.command))
    decreases |samples|
  {
    if samples == [] {
      assert Launches([]) == 0;
    } else {
      var st := PressSample(s, samples[0].now, samples[0].polls);
      var rest := Hold(st.next, samples[1..]);
      SampleLaunches(s, samples[0].now, samples[0].polls);
      LaunchesAppend(st.fx, rest.fx);
      if st.next.status.Running? {
        HoldLaunches(st.next, samples[1..]);
      } else {
        assert rest.fx == [];
        assert Launches([]) == 0;
        assert st.fx + rest.fx == st.fx;
      }
    }
  }

  /** One iteration of `while True`. */
  function Iteration(s: State, round: Round): (r: Step)
    requires Inv(s) && s.status.Running?
    ensures Inv(r.next)
  {
    var t := Tick(s, round.io);
    if !t.next.status.Running? then t
    else
      var h := Hold(t.next, round.samples);
      if !h.next.status.Running? then Step(h.next, t.fx + h.fx)
      else
        var rl := Release(h.next);
        Step(rl.next, t.fx + h.fx + rl.fx)
  }

  /** Successive iterations, until the loop ends. */
  function Run(s: State, rounds: seq<Round>): (r: Step)
    requires Inv(s)
    ensures Inv(r.next)
    decreases |rounds|
  {
    if rounds == [] || !s.status.Running? then Step(s, [])
    else
      var it := Iteration(s, rounds[0]);
      var rest := Run(it.next, rounds[1..]);
      Step(rest.next, it.fx + rest.fx)
  }

  // ---------------------------------------------------------------------
  // properties of whole iterations and runs

  /** A drawn screen launches nothing. */
  lemma DisplayQuiet(sc: Screen, c: nat)
    ensures Launches([Display(sc, c)]) == 0
  {
    CountIn([Display(sc, c)], Launch(RebootNow));
    CountIn([Display(sc, c)], Launch(ShutdownNow));
  }

  /** An iteration launches a command exactly when it ends the loop by
      exit(), once, as its very last effect. */
  lemma IterationLaunches(s: State, round: Round)
    requires Inv(s) && s.status.Running?
    ensures var r := Iteration(s, round);
      && Launches(r.fx) == (if r.next.status.Exited? then 1 else 0)
      && (r.next.status.Exited? ==> |r.fx| > 0 && r.fx[|r.fx| - 1] == Launch(r.next.status.command))
  {
    var t := Tick(s, round.io);
    TickFacts(s, round.io);
    if t.next.status.Running? {
      var h := Hold(t.next, round.samples);
      HoldLaunches(t.next, round.samples);
      LaunchesAppend(t.fx, h.fx);
      if h.next.status.Running? {
        var rl := Release(h.next);
        LaunchesAppend(t.fx + h.fx, rl.fx);
        if h.next.clicked {
          DisplayQuiet(Menu[NextMenu(h.next.menu)], 0);
        } else {
          assert Launches([]) == 0;
        }
      }
    }
  }

  /** A run launches at most one command: one exactly when it ends by
      exit(), and that launch is the last thing it does. */
  lemma {:induction false} RunLaunches(s: State, rounds: seq<Round>)
    requires Inv(s) && s.status.Running?
    ensures var r := Run(s, rounds);
      && Launches(r.fx) == (if r.next.status.Exited? then 1 else 0)
      && (r.next.status.Exited? ==> |r.fx| > 0 && r.fx[|r.fx| - 1] == Launch(r.next.status.command))
    decreases |rounds|
  {
    if rounds == [] {
      assert Launches([]) == 0;
    } else {
      var it := Iteration(s, rounds[0]);
      var rest := Run(it.next, rounds[1..]);
      IterationLaunches(s, rounds[0]);
      LaunchesAppend(it.fx, rest.fx);
      if it.next.status.Running? {
        RunLaunches(it.next, rounds[1..]);
      } else {
        assert rest.fx == [];
        assert Launches([]) == 0;
        assert it.fx + rest.fx == it.fx;
      }
    }
  }

  /** An iteration that leaves the loop running leaves the controller at
      rest: after a press the release has cleared the click, the cancel
      and the press start. */
  lemma IterationRests(s: State, round: Round)
    requires Inv(s) && s.status.Running? && AtRest(s)
    ensures var r := Iteration(s, round);
      r.next.status.Running? ==> AtRest(r.next)
  {
    var t := Tick(s, round.io);
    TickFacts(s, round.io);
    if t.next.status.Running? && round.samples != [] {
      var h := Hold(t.next, round.samples);
      HoldFacts(t.next, round.samples);
      if h.next.status.Running? {
        ReleaseAdvances(h.next);
      }
    }
  }

  /** A press-and-release iteration: without a cancelled countdown the
      menu moves one step on from where the press found it; a countdown
      cancelled on REBOOT (index 3) ends the press on INFO2 (index 1), one
      cancelled on SHUTDOWN (index 4) on CLOCK (index 2). The new entry is
      drawn last, the timer is at ACTION_TIMEOUT and the last sample's time
      is kept in button_down_last. */
  lemma PressRound(s: State, round: Round)
    requires Inv(s) && s.status.Running? && AtRest(s) && round.samples != []
    ensures var t := Tick(s, round.io).next;
      var h := Hold(t, round.samples).next;
      var r := Iteration(s, round);
      r.next.status.Running? ==>
        && r.next.actionTime == ActionTimeout
        && r.next.downLast == Some(round.samples[|round.samples| - 1].now)
        && (!h.cancel ==> r.next.menu == Some(NextMenu(t.menu)))
        && (h.cancel ==>
              || (t.menu == Some(3) && r.next.menu == Some(1))
              || (t.menu == Some(4) && r.next.menu == Some(2)))
        && |r.fx| > 0 && r.fx[|r.fx| - 1] == Display(Menu[r.next.menu.value], 0)
  {
    var t := Tick(s, round.io);
    TickFacts(s, round.io);
    if t.next.status.Running? {
      var h := Hold(t.next, round.samples);
      HoldFacts(t.next, round.samples);
      if h.next.status.Running? {
        ReleaseAdvances(h.next);
      }
    }
  }

  /** A round with a single sample, taken while the timer still runs, is a
      plain click: the menu advances one step, and the tick's sleep, the
      sample's sleep and the new entry are the whole trace. */
  lemma ClickIteration(s: State, io: string, smp: Sample)
    requires Inv(s) && s.status.Running? && AtRest(s) && s.actionTime > 1
    ensures var r := Iteration(s, Round(io, [smp]));
      && r.next == s.(actionTime := ActionTimeout, menu := Some(NextMenu(s.menu)),
                      down := Some(smp.now), downLast := Some(smp.now))
      && r.fx == [Sleep(100), Sleep(50), Display(Menu[NextMenu(s.menu)], 0)]
  {
    var t := Tick(s, io);
    FirstSample(t.next, smp.now, smp.polls);
    var st := PressSample(t.next, smp.now, smp.polls);
    assert Hold(st.next, []) == Step(st.next, []);
    assert Hold(t.next, [smp]) == Step(st.next, st.fx);
  }

  /** Rounds of one sample each. */
  predicate Clicks(rounds: seq<Round>)
  {
    forall i :: 0 <= i < |rounds| ==> |rounds[i].samples| == 1
  }

  /** k single clicks while the timer runs advance the menu k steps and
      leave the controller running and at rest. */
  lemma {:induction false} ClickRun(s: State, rounds: seq<Round>)
    requires Inv(s) && s.status.Running? && AtRest(s) && s.actionTime > 1
    requires Clicks(rounds)
    ensures var r := Run(s, rounds);
      && r.next.status == Running
      && AtRest(r.next)
      && r.next.menu == Advance(s.menu, |rounds|)
      && (rounds != [] ==> r.next.actionTime == ActionTimeout)
    decreases |rounds|
  {
    if rounds != [] {
      var rd := rounds[0];
      assert rd == Round(rd.io, [rd.samples[0]]);
      ClickIteration(s, rd.io, rd.samples[0]);
      var it := Iteration(s, rd);
      assert Clicks(rounds[1..]) by {
        forall i | 0 <= i < |rounds[1..]| ensures |rounds[1..][i].samples| == 1 {
          assert rounds[1..][i] == rounds[i + 1];
        }
      }
      ClickRun(it.next, rounds[1..]);
      AdvanceShift(s.menu, |rounds| - 1);
    }
  }

  /** From start-up (the panel blank, menu_state None, the timer still
      running), the k-th click shows the ((k - 1) mod 5)-th menu entry:
      INFO, INFO2, CLOCK, REBOOT, SHUTDOWN, INFO, ... */
  lemma ClicksFromIdle(s: State, rounds: seq<Round>)
    requires Inv(s) && s.status.Running? && AtRest(s) && s.menu.None? && s.actionTime > 1
    requires Clicks(rounds) && rounds != []
    ensures Run(s, rounds).next.menu == Some((|rounds| - 1) % |Menu|)
  {
    var k := |rounds|;
    ClickRun(s, rounds);
    assert Run(s, rounds).next.menu == Advance(None, k);
    AdvanceFromIdle(k);
  }

  /** k iterations without a press. */
  function QuietRounds(io: string, k: nat): (r: seq<Round>)
    ensures |r| == k
    ensures forall i :: 0 <= i < k ==> r[i] == Round(io, [])
  {
    if k == 0 then [] else [Round(io, [])] + QuietRounds(io, k - 1)
  }

  /** A tick while the timer runs sleeps one tenth of a second. */
  lemma TickSleeps(s: State, io: string)
    requires Inv(s) && s.status.Running? && s.actionTime > 0
    ensures SleptMs(Tick(s, io).fx) == 100
  {
    var fx := Tick(s, io).fx;
    if s.actionTime == 1 {
      assert fx[1..] == [Display(Blank, 0)];
      assert fx[1..][1..] == [];
    } else {
      assert fx[1..] == [];
    }
  }

  /** Without a press, k iterations with the timer at T >= k lower it to
      T - k and sleep k tenths; the panel is blanked and menu_state
      cleared exactly when the timer reaches zero, and nothing else
      changes. */
  lemma {:induction false} TimeoutRun(s: State, io: string, k: nat)
    requires Inv(s) && s.status.Running? && AtRest(s) && k <= s.actionTime
    ensures var r := Run(s, QuietRounds(io, k));
      && r.next == s.(actionTime := s.actionTime - k,
                      menu := if k > 0 && k == s.actionTime then None else s.menu)
      && Blanks(r.fx) == (if k > 0 && k == s.actionTime then 1 else 0)
      && SleptMs(r.fx) == 100 * k
    decreases k
  {
    var rounds := QuietRounds(io, k);
    if k == 0 {
      assert Blanks([]) == 0;
    } else {
      var t := Tick(s, io);
      TickFacts(s, io);
      TickSleeps(s, io);
      var it := Iteration(s, rounds[0]);
      assert it == t;
      assert rounds[1..] == QuietRounds(io, k - 1);
      var rest := Run(it.next, rounds[1..]);
      TimeoutRun(it.next, io, k - 1);
      BlanksAppend(it.fx, rest.fx);
      SleptMsAppend(it.fx, rest.fx);
    }
  }

  /** ACTION_TIMEOUT after the last press the panel goes blank: 199 quiet
      tenths leave it and the menu alone, the 200th blanks it, 20 s of
      sleep in all. */
  lemma BlanksAfterTimeout(s: State, io: string)
    requires Inv(s) && s.status.Running? && AtRest(s) && s.actionTime == ActionTimeout
    ensures var r := Run(s, QuietRounds(io, ActionTimeout as nat - 1));
      r.next.menu == s.menu && Blanks(r.fx) == 0 && r.next.actionTime == 1
    ensures var r := Run(s, QuietRounds(io, ActionTimeout as nat));
      r.next.menu == None && Blanks(r.fx) == 1 && r.next.actionTime == 0 && SleptMs(r.fx) == 20000
  {
    TimeoutRun(s, io, ActionTimeout as nat - 1);
    TimeoutRun(s, io, ActionTimeout as nat);
  }

  /** Holding the button for more than ACTION_PRESS while the panel is
      blank (menu_state None) stops the loop with TypeError on MENU[None]:
      the second sample of the press already crashes. This holds at
      start-up, while the timer still runs, and after a timeout, when the
      timer is at zero and the diskstats scan of the tick succeeds. */
  lemma IdleLongPressCrashes(s: State, io: string, t: int, polls: seq<bool>)
    requires Inv(s) && s.status.Running? && AtRest(s) && s.menu.None?
    requires s.actionTime > 0 || DiskActivity(Lines(io)).Ok?
    ensures Iteration(s, Round(io, [Sample(t, []), Sample(t + ActionPress + 1, polls)])).next.status
            == Crashed(MenuIndexNone)
  {
    var samples := [Sample(t, []), Sample(t + ActionPress + 1, polls)];
    var tk := Tick(s, io);
    TickFacts(s, io);
    var st := PressSample(tk.next, t, []);
    FirstSample(tk.next, t, []);
    ShortSampleClicks(tk.next, t, []);
    LongPressElsewhere(st.next, t + ActionPress + 1, polls);
    var st2 := PressSample(st.next, t + ActionPress + 1, polls);
    assert samples[1..][1..] == [];
    assert Hold(st.next, samples[1..]).next == st2.next;
    assert Hold(tk.next, samples).next == st2.next;
  }
}

/** Shared vocabulary of the OLED info controller: the screens it draws,
    the effects it has on the display, the LED, the clock and the system,
    how a run can end, and the constants of bin/oled-info.py.

    Time is abstract: the idle timer counts integer tenths of a second,
    press timestamps are integer microseconds (the resolution of Python's
    datetime), and every sleep is recorded as a Sleep effect in milliseconds. */
module OledBase {

  datatype Option<+T> = None | Some(value: T)

  /** The states oled_display knows; Blank is the call without a state,
      which clears the panel. */
  datatype Screen =
    | Blank | Bootup | Info | Info2 | Clock
    | Reboot | Rebooting | Shutdown | ShuttingDown

  /** The two privileged commands the controller can launch. */
  datatype Command = RebootNow | ShutdownNow

  /** One observable effect, in the order the controller performs them. */
  datatype Effect =
    | Display(screen: Screen, count: nat)   // oled_display(state, count)
    | LedPulse(onMs: nat, offMs: nat)       // led.pulse(on, off)
    | LedLevel(percent: nat)                // led.value = percent / 100
    | Sleep(ms: nat)                        // time.sleep(ms / 1000)
    | Launch(command: Command)              // subprocess.Popen(command)

  /** The two unhandled exceptions the main loop can raise. */
  datatype Fault =
    | MenuIndexNone              // MENU[None]: TypeError
    | BadDiskField(token: string) // int(token): ValueError

  /** Running, ended by exit() after launching a command, or ended by an
      unhandled exception. */
  datatype Status = Running | Exited(command: Command) | Crashed(fault: Fault)

  /** Idle timer value right after the start-up splash (10 s, in tenths). */
  const ActionInitialTimeout: int := 100
  /** Idle timer value set by every press sample (20 s, in tenths). */
  const ActionTimeout: int := 200
  /** A press is long when it has lasted strictly more than this (2 s, in microseconds). */
  const ActionPress: int := 2000000
  const RebootCountdown: nat := 6
  const ShutdownCountdown: nat := 6
  /** 1-based column of /proc/diskstats that is read: I/Os currently in progress. */
  const IoField: nat := 12
  /** Resting LED brightness, in percent (0.25). */
  const LedResting: nat := 25

  /** The cyclic menu; menu_state is an index into it. */
  const Menu: seq<Screen> := [Info, Info2, Clock, Reboot, Shutdown]

  /** How many times an effect occurs in a trace. */
  function Count(fx: seq<Effect>, e: Effect): nat
  {
    if fx == [] then 0
    else (if fx[0] == e then 1 else 0) + Count(fx[1..], e)
  }

  /** How many privileged commands a trace launches. */
  function Launches(fx: seq<Effect>): nat
  {
    Count(fx, Launch(RebootNow)) + Count(fx, Launch(ShutdownNow))
  }

  /** How many times a trace blanks the display. */
  function Blanks(fx: seq<Effect>): nat
  {
    Count(fx, Display(Blank, 0))
  }

  /** Whether a trace drives the LED at all. */
  predicate TouchesLed(fx: seq<Effect>)
  {
    exists i :: 0 <= i < |fx| && (fx[i].LedPulse? || fx[i].LedLevel?)
  }

  /** Whether a trace draws a countdown frame. */
  predicate ShowsCountdown(fx: seq<Effect>)
  {
    exists i :: 0 <= i < |fx| && fx[i].Display? && (fx[i].screen == Rebooting || fx[i].screen == ShuttingDown)
  }

  /** The counts drawn on countdown frames, in order. */
  function CountsShown(fx: seq<Effect>): seq<nat>
  {
    if fx == [] then []
    else
      var head := if fx[0].Display? && (fx[0].screen == Rebooting || fx[0].screen == ShuttingDown)
                  then [fx[0].count] else [];
      head + CountsShown(fx[1..])
  }

  /** Total time a trace spends asleep, in milliseconds. */
  function SleptMs(fx: seq<Effect>): nat
  {
    if fx == [] then 0
    else (if fx[0].Sleep? then fx[0].ms else 0) + SleptMs(fx[1..])
  }

  lemma {:induction false} CountsShownAppend(a: seq<Effect>, b: seq<Effect>)
    ensures CountsShown(a + b) == CountsShown(a) + CountsShown(b)
  {
    if a != [] {
      assert (a + b)[1..] == a[1..] + b;
      CountsShownAppend(a[1..], b);
    } else {
      assert a + b == b;
    }
  }

  lemma {:induction false} SleptMsAppend(a: seq<Effect>, b: seq<Effect>)
    ensures SleptMs(a + b) == SleptMs(a) + SleptMs(b)
  {
    if a != [] {
      assert (a + b)[1..] == a[1..] + b;
      SleptMsAppend(a[1..], b);
    } else {
      assert a + b == b;
    }
  }

  lemma {:induction false} CountAppend(a: seq<Effect>, b: seq<Effect>, e: Effect)
    ensures Count(a + b, e) == Count(a, e) + Count(b, e)
  {
    if a != [] {
      assert (a + b)[1..] == a[1..] + b;
      CountAppend(a[1..], b, e);
    } else {
      assert a + b == b;
    }
  }

  /** An effect occurs a nonzero number of times exactly when it is in the trace. */
  lemma {:induction false} CountIn(fx: seq<Effect>, e: Effect)
    ensures Count(fx, e) > 0 <==> e in fx
  {
    if fx != [] {
      CountIn(fx[1..], e);
      assert e in fx <==> fx[0] == e || e in fx[1..];
    }
  }

  lemma LaunchesAppend(a: seq<Effect>, b: seq<Effect>)
    ensures Launches(a + b) == Launches(a) + Launches(b)
  {
    CountAppend(a, b, Launch(RebootNow));
    CountAppend(a, b, Launch(ShutdownNow));
  }

  lemma BlanksAppend(a: seq<Effect>, b: seq<Effect>)
    ensures Blanks(a + b) == Blanks(a) + Blanks(b)
  {
    CountAppend(a, b, Display(Blank, 0));
  }
}

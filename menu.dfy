/** The cyclic menu: menu_state is None (blank, idle) or an index into
    MENU, and every completed press moves it one step around the cycle. */
module MenuCycle {
  import opened OledBase

  /** menu_state as the controller keeps it: absent, or a valid index. */
  predicate ValidMenu(m: Option<nat>)
  {
    m.None? || m.value < |Menu|
  }

  /** The release rule: from None or the last entry back to the first,
      otherwise one entry on. The result is always a valid index. */
  function NextMenu(m: Option<nat>): (r: nat)
    requires ValidMenu(m)
    ensures r < |Menu|
    ensures m.Some? ==> r == (m.value + 1) % |Menu|
    ensures m.None? ==> r == 0
  {
    if m.None? || m.value == |Menu| - 1 then 0 else m.value + 1
  }

  /** The screens that support a long-press action. */
  predicate IsActionable(s: Screen)
  {
    s == Reboot || s == Shutdown
  }

  /** Only the last two menu entries are actionable. */
  lemma ActionableEntries(i: nat)
    requires i < |Menu|
    ensures IsActionable(Menu[i]) <==> i == 3 || i == 4
    ensures Menu[i] == Reboot <==> i == 3
    ensures Menu[i] == Shutdown <==> i == 4
  {
  }

  /** menu_state after k completed presses. */
  function Advance(m: Option<nat>, k: nat): (r: Option<nat>)
    requires ValidMenu(m)
    ensures ValidMenu(r)
    decreases k
  {
    if k == 0 then m else Some(NextMenu(Advance(m, k - 1)))
  }

  /** The screens drawn by k successive releases, in order. */
  function ScreensShown(m: Option<nat>, k: nat): (r: seq<Screen>)
    requires ValidMenu(m)
    ensures |r| == k
    decreases k
  {
    if k == 0 then [] else ScreensShown(m, k - 1) + [Menu[NextMenu(Advance(m, k - 1))]]
  }

  /** From the idle (None) state, the k-th press shows entry (k - 1) mod 5. */
  lemma {:induction false} AdvanceFromIdle(k: nat)
    requires k >= 1
    ensures Advance(None, k) == Some((k - 1) % |Menu|)
  {
    if k > 1 {
      AdvanceFromIdle(k - 1);
    }
  }

  /** From a valid entry, k presses move k steps around the cycle. */
  lemma {:induction false} AdvanceFromEntry(i: nat, k: nat)
    requires i < |Menu|
    ensures Advance(Some(i), k) == Some((i + k) % |Menu|)
  {
    if k > 0 {
      AdvanceFromEntry(i, k - 1);
    }
  }

  /** One press followed by k more is k + 1 presses. */
  lemma {:induction false} AdvanceShift(m: Option<nat>, k: nat)
    requires ValidMenu(m)
    ensures Advance(Some(NextMenu(m)), k) == Advance(m, k + 1)
  {
    if k > 0 {
      AdvanceShift(m, k - 1);
    }
  }

  /** Five presses bring every entry back to itself. */
  lemma MenuPeriod(i: nat)
    requires i < |Menu|
    ensures Advance(Some(i), |Menu|) == Some(i)
  {
    AdvanceFromEntry(i, |Menu|);
  }

  /** The k-th screen drawn from idle is the ((k - 1) mod 5)-th entry. */
  lemma {:induction false} ScreensFromIdle(k: nat)
    ensures forall j :: 0 <= j < k ==> ScreensShown(None, k)[j] == Menu[j % |Menu|]
  {
    if k > 0 {
      ScreensFromIdle(k - 1);
      AdvanceFromIdle(k);
      if k > 1 { AdvanceFromIdle(k - 1); }
    }
  }

  /** Starting idle, six presses show INFO, INFO2, CLOCK, REBOOT, SHUTDOWN
      and INFO again. */
  lemma FirstSixPresses()
    ensures ScreensShown(None, 6) == [Info, Info2, Clock, Reboot, Shutdown, Info]
  {
    ScreensFromIdle(6);
  }
}

/** The touch panel (firmware/src/main.rs, firmware/src/ui.rs, shared/backlight/src/lib.rs): one
    loop iteration samples the touch sensor, decides about the backlight, handles a new press on
    the screen that is shown, and redraws what has changed. */
module Panel {
  import opened Wrappers
  import opened CalendarScreen

  // ---------- Buttons ----------

  datatype Button = Button(x: int, y: int, w: int, h: int) {
    /** Right and lower edges are outside. */
    predicate Contains(p: (int, int)) {
      x <= p.0 < x + w && y <= p.1 < y + h
    }
  }

  const WAKE_BUTTON := Button(10, 180, 95, 48)
  const REBOOT_BUTTON := Button(112, 180, 95, 48)
  const SHUTDOWN_BUTTON := Button(214, 180, 95, 48)
  const CLOCK_TAP_ZONE := Button(24, 138, 272, 32)
  const CALENDAR_BACK_BUTTON := Button(20, 150, 130, 26)
  const CANCEL_BUTTON := Button(20, 150, 130, 60)
  const OK_BUTTON := Button(170, 150, 130, 60)

  const SLEEP_TIMEOUT_SECS: int := 60

  function ButtonOf(a: PanelAction): Button {
    match a
    case Reboot => REBOOT_BUTTON
    case Shutdown => SHUTDOWN_BUTTON
  }

  datatype Outcome = Nothing | Rejected | SentWake | Executed(action: PanelAction)

  // ---------- One iteration ----------

  /** One sample. The shared lock is read when a power button is tapped and again just before
      the operation; another thread may flip it in between. `io` tells whether the backlight
      could be switched. */
  datatype Tick = Tick(
    point: Option<(int, int)>, lockedAtTap: bool, lockedAtRun: bool, online: bool, now: int, io: bool)

  datatype PanelState = PanelState(screen: Screen, touchWasDown: bool, backlightOn: bool, lastTouchAt: int)

  function Start(now: int): PanelState {
    PanelState(Main, false, true, now)
  }

  /** A press that just began. */
  predicate PressEdge(p: PanelState, t: Tick) {
    t.point.Some? && !p.touchWasDown
  }

  /** A new press on the screen that is shown. */
  function Press(screen: Screen, at: (int, int), t: Tick): (Screen, Outcome) {
    match screen
    case Confirm(action) =>
      if OK_BUTTON.Contains(at) then
        if t.lockedAtTap || t.lockedAtRun then (Main, Rejected) else (Main, Executed(action))
      else if CANCEL_BUTTON.Contains(at) then (Main, Nothing)
      else (screen, Nothing)
    case _ =>
      var power := WAKE_BUTTON.Contains(at) || REBOOT_BUTTON.Contains(at) || SHUTDOWN_BUTTON.Contains(at);
      if power && t.lockedAtTap then (Main, Rejected)
      else if WAKE_BUTTON.Contains(at) then if t.lockedAtRun then (Main, Rejected) else (screen, SentWake)
      else if t.online && REBOOT_BUTTON.Contains(at) then (Confirm(Reboot), Nothing)
      else if t.online && SHUTDOWN_BUTTON.Contains(at) then (Confirm(Shutdown), Nothing)
      else if screen.Main? && CLOCK_TAP_ZONE.Contains(at) then (Calendar, Nothing)
      else if screen.Calendar? && CALENDAR_BACK_BUTTON.Contains(at) then (Main, Nothing)
      else (screen, Nothing)
  }

  function Step(p: PanelState, t: Tick): (PanelState, Outcome) {
    var down := t.point.Some?;
    if !PressEdge(p, t) then
      var off := p.backlightOn && t.now - p.lastTouchAt >= SLEEP_TIMEOUT_SECS && t.io;
      (p.(touchWasDown := down, backlightOn := p.backlightOn && !off), Nothing)
    else if !p.backlightOn then
      // The press that wakes the backlight goes no further.
      (p.(touchWasDown := down, backlightOn := t.io, lastTouchAt := if t.io then t.now else p.lastTouchAt), Nothing)
    else
      var (screen, outcome) := Press(p.screen, t.point.value, t);
      (PanelState(screen, down, true, t.now), outcome)
  }

  function After(p: PanelState, ticks: seq<Tick>): PanelState {
    if ticks == [] then p else Step(After(p, ticks[..|ticks| - 1]), ticks[|ticks| - 1]).0
  }

  function OutcomeAt(p: PanelState, ticks: seq<Tick>, k: int): Outcome
    requires 0 <= k < |ticks|
  {
    Step(After(p, ticks[..k]), ticks[k]).1
  }

  datatype BacklightAction = NoChange | ResetIdle | TurnOff | Wake

  function Decide(backlightOn: bool, risingEdge: bool, idle: int): BacklightAction {
    if backlightOn then
      if risingEdge then ResetIdle else if idle >= SLEEP_TIMEOUT_SECS then TurnOff else NoChange
    else if risingEdge then Wake else NoChange
  }

  /** The clock readings of the redraws in one iteration: `status` for each status change noticed
      before the touch is sampled, `touch` for what the touch makes the loop draw, `toast` if a
      toast expires, `end` for the check at the end. A redraw of the main screen takes both
      readings of its pair, one of the calendar only the first. */
  datatype Clock = Clock(status: seq<(int, int)>, touch: (int, int), toast: Option<(int, int)>, end: (int, int)) {
    predicate Representable(tzHours: int) {
      && (forall i :: 0 <= i < |status| ==> PairRepresentable(status[i], tzHours))
      && PairRepresentable(touch, tzHours) && PairRepresentable(end, tzHours)
      && (toast.Some? ==> PairRepresentable(toast.value, tzHours))
    }
  }

  predicate PairRepresentable(p: (int, int), tzHours: int) {
    CalendarScreen.Representable(p.0, tzHours) && CalendarScreen.Representable(p.1, tzHours)
  }

  class PanelLoop {
    const display: TimeDisplay
    var touchWasDown: bool
    var backlightOn: bool
    var lastTouchAt: int

    ghost function State(): PanelState
      reads this, display
    {
      PanelState(display.screen, touchWasDown, backlightOn, lastTouchAt)
    }

    constructor (now: int, tzHours: int, t: (int, int))
      requires PairRepresentable(t, tzHours)
      ensures State() == Start(now) && fresh(display) && display.Valid() && display.tzHours == tzHours
    {
      display := new TimeDisplay(tzHours, t.0, t.1);
      touchWasDown, backlightOn, lastTouchAt := false, true, now;
    }

    /** One iteration, on every path: through the end, and through the two early exits, for a press
        that wakes the backlight and for a rejected one. If the backlight is on afterwards, what is
        shown is as fresh as `FreshExactly` says. */
    method Iterate(t: Tick, clock: Clock) returns (outcome: Outcome)
      requires display.Valid() && clock.Representable(display.tzHours)
      modifies this, display
      ensures (State(), outcome) == Step(old(State()), t)
      ensures display.Valid()
      ensures backlightOn ==> display.FreshExactly()
    {
      hide Step, PairRepresentable;
      hide TimeDisplay.Valid, TimeDisplay.FreshExactly, TimeDisplay.FreshAt;
      FollowStatus(clock.status);
      var early: bool;
      outcome, early := HandleTouch(t, clock.touch);
      if early {
        return;
      }
      if clock.toast.Some? {
        FollowStatus([clock.toast.value]);
      }
      EndOfIteration(clock.end);
    }

    method EndOfIteration(at: (int, int))
      requires display.Valid() && PairRepresentable(at, display.tzHours)
      modifies display
      ensures display.Valid() && display.screen == old(display.screen)
      ensures backlightOn ==> display.FreshExactly()
    {
      display.EndOfIteration(backlightOn, at.0, at.1);
    }

    /** The backlight decision and the press; `early` if the iteration ends here. */
    method HandleTouch(t: Tick, clock: (int, int)) returns (outcome: Outcome, early: bool)
      requires display.Valid() && PairRepresentable(clock, display.tzHours)
      modifies this, display
      ensures (State(), outcome) == Step(old(State()), t)
      ensures display.Valid() && (early ==> display.FreshExactly())
    {
      hide Press, PairRepresentable;
      hide TimeDisplay.Valid, TimeDisplay.FreshExactly, TimeDisplay.FreshAt;
      outcome, early := Nothing, false;
      var down := t.point.Some?;
      match Decide(backlightOn, down && !touchWasDown, t.now - lastTouchAt) {
        case NoChange =>
        case ResetIdle => lastTouchAt := t.now;
        case TurnOff =>
          if t.io {
            backlightOn := false;
          }
        case Wake =>
          if t.io {
            backlightOn, lastTouchAt := true, t.now;
          }
          touchWasDown := down;
          RedrawAfterWake(clock);
          return Nothing, true;
      }
      if down && !touchWasDown {
        outcome := HandlePress(t, clock);
        early := outcome.Rejected?;
      }
      touchWasDown := down;
    }

    /** Redraws the shown screen for every status change. */
    method FollowStatus(readings: seq<(int, int)>)
      requires display.Valid()
      requires forall i :: 0 <= i < |readings| ==> PairRepresentable(readings[i], display.tzHours)
      modifies display
      ensures display.Valid() && display.screen == old(display.screen)
    {
      for i := 0 to |readings|
        invariant display.Valid() && display.screen == old(display.screen)
      {
        display.RefreshCurrentScreen(readings[i].0, readings[i].1);
      }
    }

    method RedrawAfterWake(at: (int, int))
      requires display.Valid() && PairRepresentable(at, display.tzHours)
      modifies display
      ensures display.Valid() && display.screen == old(display.screen) && display.FreshExactly()
    {
      if display.screen.Confirm? {
        display.DrawConfirm(display.screen.action);
      } else {
        display.RefreshCurrentScreen(at.0, at.1);
      }
    }

    /** A new press while the backlight is on. A rejected one returns to the main screen. */
    method HandlePress(t: Tick, clock: (int, int)) returns (outcome: Outcome)
      requires display.Valid() && PairRepresentable(clock, display.tzHours) && t.point.Some?
      modifies display
      ensures (display.screen, outcome) == Press(old(display.screen), t.point.value, t)
      ensures display.Valid()
      ensures outcome.Rejected? ==> display.FreshExactly()
    {
      outcome := Nothing;
      var at := t.point.value;
      var powerTapped :=
        if display.screen.Confirm? then OK_BUTTON.Contains(at)
        else WAKE_BUTTON.Contains(at) || REBOOT_BUTTON.Contains(at) || SHUTDOWN_BUTTON.Contains(at);
      if powerTapped && t.lockedAtTap {
        display.RefreshMain(clock.0, clock.1);
        return Rejected;
      }
      if display.screen.Confirm? {
        if CANCEL_BUTTON.Contains(at) {
          display.RefreshMain(clock.0, clock.1);
        } else if OK_BUTTON.Contains(at) {
          outcome := if t.lockedAtRun then Rejected else Executed(display.screen.action);
          display.RefreshMain(clock.0, clock.1);
        }
      } else if WAKE_BUTTON.Contains(at) {
        if t.lockedAtRun {
          outcome := Rejected;
          display.RefreshMain(clock.0, clock.1);
        } else {
          outcome := SentWake;
          display.RefreshCurrentScreen(clock.0, clock.1);
        }
      } else if t.online && REBOOT_BUTTON.Contains(at) {
        display.DrawConfirm(Reboot);
      } else if t.online && SHUTDOWN_BUTTON.Contains(at) {
        display.DrawConfirm(Shutdown);
      } else if display.screen.Main? && CLOCK_TAP_ZONE.Contains(at) {
        display.RefreshCalendar(clock.0);
      } else if display.screen.Calendar? && CALENDAR_BACK_BUTTON.Contains(at) {
        display.RefreshMain(clock.0, clock.1);
      }
    }
  }

  // ---------- Two separate presses ----------

  lemma {:induction false} TouchIsRemembered(p: PanelState, ticks: seq<Tick>)
    requires ticks != []
    ensures After(p, ticks).touchWasDown == ticks[|ticks| - 1].point.Some?
  {
  }

  /** Tick `i` opened the confirmation of `a`: a lit, unlocked press on its button while the PC
      was online. */
  predicate Opens(p: PanelState, ticks: seq<Tick>, i: int, a: PanelAction)
    requires 0 <= i < |ticks|
  {
    var before := After(p, ticks[..i]);
    var t := ticks[i];
    && before.backlightOn && !before.screen.Confirm? && PressEdge(before, t)
    && ButtonOf(a).Contains(t.point.value) && !t.lockedAtTap && t.online
  }

  lemma {:induction false} FindOpening(p: PanelState, ticks: seq<Tick>) returns (i: nat)
    requires !p.screen.Confirm? && After(p, ticks).screen.Confirm?
    ensures i < |ticks| && Opens(p, ticks, i, After(p, ticks).screen.action)
    ensures forall m :: i < m <= |ticks| ==> After(p, ticks[..m]).screen == After(p, ticks).screen
  {
    var n := |ticks| - 1;
    var before := ticks[..n];
    var q := After(p, before);
    assert ticks[..n + 1] == ticks;
    if q.screen.Confirm? {
      i := FindOpening(p, before);
      assert before[..i] == ticks[..i];
      forall m | i < m <= |ticks| ensures After(p, ticks[..m]).screen == After(p, ticks).screen {
        if m <= n {
          assert before[..m] == ticks[..m];
        } else {
          assert ticks[..m] == ticks;
        }
      }
    } else {
      i := n;
    }
  }

  /** Each reboot or shutdown at the panel takes two separate presses: an unlocked press on that
      action's button while the PC was online, later a moment without touch, and then an
      unlocked press on OK; from the first press on the confirm screen stayed up. */
  lemma ExecutionTakesTwoPresses(p: PanelState, ticks: seq<Tick>, k: int) returns (i: nat)
    requires !p.screen.Confirm? && 0 <= k < |ticks| && OutcomeAt(p, ticks, k).Executed?
    ensures var a := OutcomeAt(p, ticks, k).action;
      && i < k - 1 && Opens(p, ticks, i, a)
      && ticks[k - 1].point.None?
      && ticks[k].point.Some? && OK_BUTTON.Contains(ticks[k].point.value)
      && !ticks[k].lockedAtTap && !ticks[k].lockedAtRun
      && forall m :: i < m <= k ==> After(p, ticks[..m]).screen == Confirm(a)
  {
    var before := ticks[..k];
    i := FindOpening(p, before);
    assert before[..i] == ticks[..i];
    TouchIsRemembered(p, before);
    assert ticks[k - 1] == before[k - 1];
    forall m | i < m <= k ensures After(p, ticks[..m]).screen == After(p, before).screen {
      assert before[..m] == ticks[..m];
    }
  }

  /** Distinct executions have distinct opening presses. */
  lemma ExecutionsHaveDistinctOpenings(p: PanelState, ticks: seq<Tick>, k: int, k': int) returns (i: nat, i': nat)
    requires !p.screen.Confirm? && 0 <= k < k' < |ticks|
    requires OutcomeAt(p, ticks, k).Executed? && OutcomeAt(p, ticks, k').Executed?
    ensures i < k < i' < k'
    ensures Opens(p, ticks, i, OutcomeAt(p, ticks, k).action) && Opens(p, ticks, i', OutcomeAt(p, ticks, k').action)
  {
    i := ExecutionTakesTwoPresses(p, ticks, k);
    i' := ExecutionTakesTwoPresses(p, ticks, k');
    var next := ticks[..k + 1];
    assert next[..k] == ticks[..k];
    assert After(p, next).screen == Main;
    assert After(p, ticks[..k]).screen.Confirm? && !After(p, ticks[..i']).screen.Confirm?;
  }

  /** While the backlight is off no press does anything but wake it. */
  lemma DarkPressIsInert(p: PanelState, t: Tick)
    requires !p.backlightOn
    ensures Step(p, t).1 == Nothing && Step(p, t).0.screen == p.screen
    ensures Step(p, t).0.backlightOn <==> PressEdge(p, t) && t.io
  {
  }

  /** Conversely press, lift and OK do execute, unless the panel idles out or is locked. */
  lemma TwoPressesExecute(p: PanelState, a: PanelAction, open: Tick, lift: Tick, ok: Tick)
    requires p.backlightOn && !p.touchWasDown && !p.screen.Confirm?
    requires open.point.Some? && ButtonOf(a).Contains(open.point.value) && !open.lockedAtTap && open.online
    requires lift.point.None? && lift.now - open.now < SLEEP_TIMEOUT_SECS
    requires ok.point.Some? && OK_BUTTON.Contains(ok.point.value) && !ok.lockedAtTap && !ok.lockedAtRun
    ensures OutcomeAt(p, [open, lift, ok], 2) == Executed(a)
  {
    var ticks := [open, lift, ok];
    assert ticks[..2] == [open, lift] && [open, lift][..1] == [open] && [open][..0] == [];
    var p1 := Step(p, open).0;
    var p2 := Step(p1, lift).0;
    assert After(p, []) == p && After(p, [open]) == p1 && After(p, [open, lift]) == p2;
    assert p1 == PanelState(Confirm(a), true, true, open.now);
    assert p2 == PanelState(Confirm(a), false, true, open.now);
  }

  /** Why a lift is needed: on the panel a finger resting on SHUTDOWN also lies on OK. */
  lemma ShutdownOverlapsOk()
    ensures SHUTDOWN_BUTTON.Contains((214, 180)) && OK_BUTTON.Contains((214, 180))
  {
  }

  // ---------- Every press, by its coordinates ----------

  /** A press that began while the backlight is on. */
  ghost predicate LitPress(p: PanelState, t: Tick, x: int, y: int) {
    p.backlightOn && !p.touchWasDown && t.point == Some((x, y))
  }

  /** After a lit press the finger is down, the backlight on and the idle time zero. */
  ghost predicate Leads(p: PanelState, t: Tick, screen: Screen, outcome: Outcome) {
    Step(p, t) == (PanelState(screen, true, true, t.now), outcome)
  }

  /** On the confirm screen CANCEL leaves, locked or not; OK executes unless locked; the rest of the
      panel does nothing. */
  lemma ConfirmScreenPress(p: PanelState, t: Tick, x: int, y: int)
    requires LitPress(p, t, x, y) && p.screen.Confirm?
    ensures 20 <= x < 150 && 150 <= y < 210 ==> Leads(p, t, Main, Nothing)
    ensures 170 <= x < 300 && 150 <= y < 210 ==>
      Leads(p, t, Main, if t.lockedAtTap || t.lockedAtRun then Rejected else Executed(p.screen.action))
    ensures !(150 <= y < 210 && (20 <= x < 150 || 170 <= x < 300)) ==> Leads(p, t, p.screen, Nothing)
  {
  }

  /** The row of power buttons is the same on the main screen and on the calendar. */
  lemma PowerButtonPress(p: PanelState, t: Tick, x: int, y: int)
    requires LitPress(p, t, x, y) && !p.screen.Confirm? && 180 <= y < 228
    ensures 10 <= x < 105 ==>
      if t.lockedAtTap || t.lockedAtRun then Leads(p, t, Main, Rejected) else Leads(p, t, p.screen, SentWake)
    ensures 112 <= x < 207 ==>
      if t.lockedAtTap then Leads(p, t, Main, Rejected)
      else Leads(p, t, if t.online then Confirm(Reboot) else p.screen, Nothing)
    ensures 214 <= x < 309 ==>
      if t.lockedAtTap then Leads(p, t, Main, Rejected)
      else Leads(p, t, if t.online then Confirm(Shutdown) else p.screen, Nothing)
    ensures !(10 <= x < 105 || 112 <= x < 207 || 214 <= x < 309) ==> Leads(p, t, p.screen, Nothing)
  {
  }

  /** Above that row the clock band opens the calendar and BACK leaves it, locked or not. */
  lemma ScreenSwitchPress(p: PanelState, t: Tick, x: int, y: int)
    requires LitPress(p, t, x, y) && !p.screen.Confirm? && !(180 <= y < 228)
    ensures p.screen.Main? ==>
      Leads(p, t, if 24 <= x < 296 && 138 <= y < 170 then Calendar else Main, Nothing)
    ensures p.screen.Calendar? ==>
      Leads(p, t, if 20 <= x < 150 && 150 <= y < 176 then Main else Calendar, Nothing)
  {
  }

  /** Without a new press only the backlight can change: it goes off after a minute. */
  lemma IdleTurnsOff(p: PanelState, t: Tick)
    requires t.point.None? || p.touchWasDown
    ensures Step(p, t) ==
      var on := p.backlightOn && !(t.now - p.lastTouchAt >= 60 && t.io);
      (PanelState(p.screen, t.point.Some?, on, p.lastTouchAt), Nothing)
  {
  }

  /** A cancelled request is over: an execution after CANCEL has its own opening press after it. */
  lemma CancelEndsRequest(p: PanelState, ticks: seq<Tick>, i: int, k: int, x: int, y: int) returns (j: nat)
    requires !p.screen.Confirm? && 0 <= i < k < |ticks| && OutcomeAt(p, ticks, k).Executed?
    requires var q := After(p, ticks[..i]); q.screen.Confirm? && LitPress(q, ticks[i], x, y)
    requires 20 <= x < 150 && 150 <= y < 210
    ensures i < j < k && Opens(p, ticks, j, OutcomeAt(p, ticks, k).action)
  {
    hide Step, Press;
    j := ExecutionTakesTwoPresses(p, ticks, k);
    ConfirmScreenPress(After(p, ticks[..i]), ticks[i], x, y);
    assert ticks[..i + 1][..i] == ticks[..i];
    assert After(p, ticks[..i + 1]).screen == Main;
  }
}

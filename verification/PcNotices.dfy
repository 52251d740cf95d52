/** The PC-state notification pipeline: wake watch, sleep watch and stable notification, polled
    together by the status loop while another thread starts wakes and sleeps
    (firmware/src/main.rs, firmware/src/telegram.rs, shared/wake-check/src/lib.rs). */
module PcNotices {
  import opened Wrappers
  import opened Debounce

  const WAKE_WATCH_TIMEOUT_SECS: int := 180
  const SLEEP_ARM_MAX_POLLS: nat := 6

  // ---------- The watches ----------

  datatype WakeNotice = Succeeded | TimedOut

  /** `WakeWatch::begin` after a wake was sent: wait only while the PC is off. */
  function WakeBegin(pcOnline: bool, now: int): Option<int> {
    if pcOnline then None else Some(now)
  }

  /** `WakeWatch::poll`: whether it goes on waiting, and what it reports. */
  function WakePoll(waiting: bool, pcOnline: bool, elapsed: int): (bool, Option<WakeNotice>) {
    if !waiting then (false, None)
    else if pcOnline then (false, Some(Succeeded))
    else if elapsed >= WAKE_WATCH_TIMEOUT_SECS then (false, Some(TimedOut))
    else (true, None)
  }

  datatype SleepPhase = Idle | Armed(polls: nat) | Suppressing

  /** `SleepWatch::poll`: the next phase, and whether an off notice is suppressed. */
  function SleepPoll(phase: SleepPhase, pcOnline: bool): (SleepPhase, bool) {
    match phase
    case Idle => (Idle, false)
    case Armed(polls) =>
      if !pcOnline then (Suppressing, true)
      else if polls + 1 >= SLEEP_ARM_MAX_POLLS then (Idle, false)
      else (Armed(polls + 1), false)
    case Suppressing => if pcOnline then (Idle, false) else (Suppressing, true)
  }

  // ---------- The pipeline ----------

  /** When the awaited wake was sent, the sleep phase, and the notification state. */
  datatype Pipeline = Pipeline(wake: Option<int>, sleep: SleepPhase, stable: StableNotify)

  const INITIAL := Pipeline(None, Idle, StableNotify(None, 0))

  /** `race` is what another thread stored in the wake watch between the poll's read of it and
      the poll's clear; `None` if nothing was stored there. */
  datatype Event =
    | Poll(online: bool, now: int, race: Option<Option<int>>)
    | WakeSent(pcOnline: bool, now: int)
    | SleepAccepted

  /** What one event did: wake notice, suppressed off, first observation, stable notice. */
  datatype Outcome = Outcome(
    wake: Option<WakeNotice>, suppressed: bool, baseline: Option<bool>, notice: Option<bool>)

  const QUIET := Outcome(None, false, None, None)

  function Step(p: Pipeline, e: Event): (Pipeline, Outcome) {
    match e
    case WakeSent(pcOnline, now) => (p.(wake := WakeBegin(pcOnline, now)), QUIET)
    case SleepAccepted => (p.(sleep := Armed(0)), QUIET)
    case Poll(online, now, race) =>
      var elapsed := if p.wake.Some? then now - p.wake.value else 0;
      var (waiting, wakeNotice) := WakePoll(p.wake.Some?, online, elapsed);
      var wake :=
        if p.wake.Some? && !waiting then None
        else if race.Some? then race.value
        else p.wake;
      var succeeded := wakeNotice == Some(Succeeded);
      var before := if succeeded then StableNotify(Some(true), 0) else p.stable;
      var (sleep, suppressed) := SleepPoll(p.sleep, online);
      var (stable, report) := before.Poll(online, succeeded, suppressed);
      var baseline := if before.notifiedOnline.None? && !suppressed then Some(online) else None;
      (Pipeline(wake, sleep, stable),
       Outcome(wakeNotice, suppressed, baseline, if report then Some(online) else None))
  }

  function After(p: Pipeline, es: seq<Event>): Pipeline {
    if es == [] then p else Step(After(p, es[..|es| - 1]), es[|es| - 1]).0
  }

  /** What event `k` of a run from `p` did. */
  function OutcomeAt(p: Pipeline, es: seq<Event>, k: int): Outcome
    requires 0 <= k < |es|
  {
    Step(After(p, es[..k]), es[k]).1
  }

  /** The loop's state, updated in place; the wake and sleep watches are shared with the thread
      that executes instructions. */
  class StatusLoop {
    var wakeStarted: Option<int>
    var sleepPhase: SleepPhase
    var stableNotify: StableNotify

    ghost function State(): Pipeline
      reads this
    {
      Pipeline(wakeStarted, sleepPhase, stableNotify)
    }

    constructor ()
      ensures State() == INITIAL
    {
      wakeStarted, sleepPhase, stableNotify := None, Idle, StableNotify(None, 0);
    }

    method BeginWakeWatch(pcOnline: bool, now: int)
      modifies this
      ensures State() == Step(old(State()), WakeSent(pcOnline, now)).0
    {
      wakeStarted := if pcOnline then None else Some(now);
    }

    method BeginSleepWatch()
      modifies this
      ensures State() == Step(old(State()), SleepAccepted).0
    {
      sleepPhase := Armed(0);
    }

    method PollSleepWatch(pcOnline: bool) returns (suppress: bool)
      modifies this
      ensures (sleepPhase, suppress) == SleepPoll(old(sleepPhase), pcOnline)
      ensures wakeStarted == old(wakeStarted) && stableNotify == old(stableNotify)
    {
      var (next, s) := SleepPoll(sleepPhase, pcOnline);
      sleepPhase, suppress := next, s;
    }

    method StatusPoll(online: bool, now: int, race: Option<Option<int>>)
      returns (wakeNotice: Option<WakeNotice>, notify: bool)
      modifies this
      ensures State() == Step(old(State()), Poll(online, now, race)).0
      ensures var o := Step(old(State()), Poll(online, now, race)).1;
        wakeNotice == o.wake && (if notify then Some(online) else None) == o.notice
    {
      var started := wakeStarted;
      if race.Some? {
        wakeStarted := race.value;
      }
      wakeNotice := None;
      if started.Some? {
        var (waiting, notice) := WakePoll(true, online, now - started.value);
        if !waiting {
          wakeStarted := None;
        }
        wakeNotice := notice;
      }
      var wakeSucceeded := wakeNotice == Some(Succeeded);
      if wakeSucceeded {
        stableNotify := StableNotify(Some(true), 0);
      }
      var suppressOff := PollSleepWatch(online);
      var (nextStable, shouldNotify) := stableNotify.Poll(online, wakeSucceeded, suppressOff);
      stableNotify, notify := nextStable, shouldNotify;
    }
  }

  // ---------- Every notice is earned ----------

  /** The run told the user, or silently recorded, that the PC is on (off). */
  predicate Turns(o: Outcome, on: bool) {
    || o.notice == Some(on)
    || o.baseline == Some(on)
    || (if on then o.wake == Some(Succeeded) else o.suppressed)
  }

  /** A wake success and a suppressed off never coincide, and one event turns one way only. */
  lemma OutcomeIsConsistent(p: Pipeline, e: Event)
    ensures var o := Step(p, e).1;
      && !(o.wake == Some(Succeeded) && o.suppressed)
      && !(Turns(o, true) && Turns(o, false))
  {
  }

  /** The direction of the last turn in a run from the initial state. */
  ghost function LastTurn(es: seq<Event>): Option<bool> {
    if es == [] then None
    else
      var o := OutcomeAt(INITIAL, es, |es| - 1);
      if Turns(o, true) then Some(true)
      else if Turns(o, false) then Some(false)
      else LastTurn(es[..|es| - 1])
  }

  lemma {:induction false} NotifiedIsLastTurn(es: seq<Event>)
    ensures After(INITIAL, es).stable.notifiedOnline == LastTurn(es)
  {
    if es != [] {
      NotifiedIsLastTurn(es[..|es| - 1]);
      OutcomeIsConsistent(After(INITIAL, es[..|es| - 1]), es[|es| - 1]);
    }
  }

  lemma {:induction false} FindLastTurn(es: seq<Event>) returns (j: nat)
    requires LastTurn(es).Some?
    ensures j < |es| && Turns(OutcomeAt(INITIAL, es, j), LastTurn(es).value)
    ensures forall m :: j < m < |es| ==> !Turns(OutcomeAt(INITIAL, es, m), !LastTurn(es).value)
  {
    hide Step, After, Turns;
    var before := es[..|es| - 1];
    var o := OutcomeAt(INITIAL, es, |es| - 1);
    if Turns(o, true) || Turns(o, false) {
      j := |es| - 1;
    } else {
      j := FindLastTurn(before);
      forall m | 0 <= m < |before| ensures OutcomeAt(INITIAL, before, m) == OutcomeAt(INITIAL, es, m) {
        assert before[..m] == es[..m];
      }
    }
  }

  /** Every "started" notice is preceded by a "stopped" notice, a suppressed off or an initial
      off, with no "started" or wake-succeeded notice in between; and symmetrically every
      "stopped" notice. */
  lemma NoticeIsEarned(es: seq<Event>, k: int) returns (j: nat)
    requires 0 <= k < |es| && OutcomeAt(INITIAL, es, k).notice.Some?
    ensures var on := OutcomeAt(INITIAL, es, k).notice.value;
      && j < k && Turns(OutcomeAt(INITIAL, es, j), !on)
      && forall m :: j < m < k ==> !Turns(OutcomeAt(INITIAL, es, m), on)
  {
    var before := es[..k];
    NotifiedIsLastTurn(before);
    j := FindLastTurn(before);
    forall m | 0 <= m < k ensures OutcomeAt(INITIAL, before, m) == OutcomeAt(INITIAL, es, m) {
      assert before[..m] == es[..m];
    }
  }

  /** The last poll's observation, if it counted towards a change of state. */
  ghost function LastDissent(es: seq<Event>): Option<bool> {
    if es == [] then None
    else match es[|es| - 1]
      case Poll(online, _, _) =>
        var o := OutcomeAt(INITIAL, es, |es| - 1);
        var b := After(INITIAL, es[..|es| - 1]).stable.notifiedOnline;
        if !o.suppressed && o.notice.None? && o.wake != Some(Succeeded) && b == Some(!online) then Some(online)
        else None
      case _ => LastDissent(es[..|es| - 1])
  }

  lemma {:induction false} StreakIsLastDissent(es: seq<Event>)
    ensures var s := After(INITIAL, es).stable;
      && s.notifyStreak == (if LastDissent(es).Some? then 1 else 0)
      && (LastDissent(es).Some? ==> s.notifiedOnline == Some(!LastDissent(es).value))
      && (s.notifiedOnline.None? ==> LastDissent(es).None?)
  {
    if es != [] {
      StreakIsLastDissent(es[..|es| - 1]);
    }
  }

  lemma {:induction false} FindDissent(es: seq<Event>) returns (j: nat)
    requires LastDissent(es).Some?
    ensures j < |es| && es[j].Poll? && Some(es[j].online) == LastDissent(es)
    ensures forall m :: j < m < |es| ==> !es[m].Poll?
    ensures !OutcomeAt(INITIAL, es, j).suppressed && OutcomeAt(INITIAL, es, j).wake != Some(Succeeded)
  {
    if es[|es| - 1].Poll? {
      j := |es| - 1;
    } else {
      var before := es[..|es| - 1];
      j := FindDissent(before);
      assert before[..j] == es[..j];
    }
  }

  /** A stable notice repeats what the poll just before it saw, and that poll neither was
      suppressed nor reported a wake. */
  lemma NoticeFollowsTwoAgreeingPolls(es: seq<Event>, k: int) returns (j: nat)
    requires 0 <= k < |es| && OutcomeAt(INITIAL, es, k).notice.Some?
    ensures j < k && es[j].Poll? && es[k].Poll? && es[j].online == es[k].online
    ensures OutcomeAt(INITIAL, es, k).notice == Some(es[k].online)
    ensures forall m :: j < m < k ==> !es[m].Poll?
    ensures !OutcomeAt(INITIAL, es, j).suppressed && OutcomeAt(INITIAL, es, j).wake != Some(Succeeded)
  {
    var before := es[..k];
    StreakIsLastDissent(before);
    j := FindDissent(before);
    assert before[..j] == es[..j];
  }

  /** Poll `x` of a run saw `on`, and neither was suppressed nor reported a wake. */
  ghost predicate Counts(es: seq<Event>, x: int, on: bool)
    requires 0 <= x < |es|
  {
    && es[x].Poll? && es[x].online == on
    && !OutcomeAt(INITIAL, es, x).suppressed && OutcomeAt(INITIAL, es, x).wake != Some(Succeeded)
  }

  /** The poll before event `k`, which counts and sees what was not told last. */
  ghost predicate Dissents(es: seq<Event>, j: int, k: int, on: bool)
    requires 0 <= k <= |es|
  {
    && 0 <= j < k && Counts(es, j, on) && LastTurn(es[..j]) == Some(!on)
    && OutcomeAt(INITIAL, es, j).notice.None?
    && forall x :: j < x < k ==> !es[x].Poll?
  }

  /** Exactly when a stable notice is given: at the second of two successive polls that both count
      and both see the opposite of what the user was told, or was recorded, last. */
  lemma NoticeExactlyWhen(es: seq<Event>, k: int, on: bool)
    requires 0 <= k < |es|
    ensures OutcomeAt(INITIAL, es, k).notice == Some(on) <==>
      && Counts(es, k, on) && LastTurn(es[..k]) == Some(!on)
      && DissentBefore(es, k, on)
  {
    StreakIsLastDissent(es[..k]);
    NotifiedIsLastTurn(es[..k]);
    DissentIs(es, k, on);
    hide LastDissent, LastTurn, DissentBefore, After;
  }

  ghost predicate DissentBefore(es: seq<Event>, k: int, on: bool)
    requires 0 <= k <= |es|
  {
    exists j :: Dissents(es, j, k, on)
  }

  lemma {:induction false} DissentIs(es: seq<Event>, k: int, on: bool)
    requires 0 <= k <= |es|
    ensures LastDissent(es[..k]) == Some(on) <==> DissentBefore(es, k, on)
    decreases k
  {
    if k > 0 {
      DissentStep(es, k, on);
      LastDissentStep(es, k, on);
      hide DissentBefore, Dissents, LastDissent;
      if !es[k - 1].Poll? {
        DissentIs(es, k - 1, on);
      }
    }
  }

  lemma DissentStep(es: seq<Event>, k: int, on: bool)
    requires 0 < k <= |es|
    ensures DissentBefore(es, k, on) <==>
      if es[k - 1].Poll? then Dissents(es, k - 1, k, on) else DissentBefore(es, k - 1, on)
  {
    hide LastTurn, OutcomeAt;
    var n := k - 1;
    if j :| Dissents(es, j, k, on) {
      if !es[n].Poll? {
        assert Dissents(es, j, n, on);
      }
    }
    if j :| Dissents(es, j, n, on) {
      if !es[n].Poll? {
        assert Dissents(es, j, k, on);
      }
    }
  }

  lemma LastDissentStep(es: seq<Event>, k: int, on: bool)
    requires 0 < k <= |es|
    ensures LastDissent(es[..k]) == Some(on) <==>
      if es[k - 1].Poll? then Dissents(es, k - 1, k, on) else LastDissent(es[..k - 1]) == Some(on)
  {
    assert es[..k][..k - 1] == es[..k - 1];
    NotifiedIsLastTurn(es[..k - 1]);
    hide After, LastTurn, Step;
  }

  // ---------- Every wake is reported at most once ----------

  /** The start of the wake that is being watched after a run, if any. */
  ghost function LastBegin(es: seq<Event>): Option<int> {
    if es == [] then None
    else if OutcomeAt(INITIAL, es, |es| - 1).wake.Some? then None
    else match es[|es| - 1]
      case WakeSent(pcOnline, now) => WakeBegin(pcOnline, now)
      case Poll(_, _, Some(stored)) => stored
      case _ => LastBegin(es[..|es| - 1])
  }

  lemma {:induction false} WatchIsLastBegin(es: seq<Event>)
    ensures After(INITIAL, es).wake == LastBegin(es)
  {
    if es != [] {
      WatchIsLastBegin(es[..|es| - 1]);
    }
  }

  predicate Begins(e: Event, at: int) {
    e == WakeSent(false, at) || (e.Poll? && e.race == Some(Some(at)))
  }

  lemma {:induction false} FindBegin(es: seq<Event>) returns (m: nat)
    requires LastBegin(es).Some?
    ensures m < |es| && Begins(es[m], LastBegin(es).value)
    ensures forall x :: m <= x < |es| ==> OutcomeAt(INITIAL, es, x).wake.None?
  {
    var before := es[..|es| - 1];
    var e := es[|es| - 1];
    if e.WakeSent? || (e.Poll? && e.race.Some?) {
      m := |es| - 1;
    } else {
      m := FindBegin(before);
      forall x | m <= x < |before| ensures OutcomeAt(INITIAL, before, x) == OutcomeAt(INITIAL, es, x) {
        assert before[..x] == es[..x];
      }
    }
  }

  /** Every wake notice answers its own wake: one begun earlier, with no other wake notice since.
      It says "succeeded" if the PC is seen on, and "timed out" if not within the limit. */
  lemma WakeNoticeAnswersOneWake(es: seq<Event>, k: int) returns (m: nat, at: int)
    requires 0 <= k < |es| && OutcomeAt(INITIAL, es, k).wake.Some?
    ensures m < k && Begins(es[m], at)
    ensures forall x :: m <= x < k ==> OutcomeAt(INITIAL, es, x).wake.None?
    ensures es[k].Poll?
    ensures OutcomeAt(INITIAL, es, k).wake.value ==
      if es[k].online then Succeeded else TimedOut
    ensures !es[k].online ==> es[k].now - at >= 180
  {
    var before := es[..k];
    WatchIsLastBegin(before);
    m := FindBegin(before);
    at := LastBegin(before).value;
    forall x | 0 <= x < k ensures OutcomeAt(INITIAL, before, x) == OutcomeAt(INITIAL, es, x) {
      assert before[..x] == es[..x];
    }
  }

  /** The event stores something in the wake watch. */
  predicate Stores(e: Event) {
    e.WakeSent? || (e.Poll? && e.race.Some?)
  }

  /** A poll that answers a wake begun at `at`. */
  predicate Answers(e: Event, at: int) {
    e.Poll? && (e.online || e.now - at >= 180)
  }

  ghost predicate AnsweredBetween(es: seq<Event>, m: int, n: int, at: int)
    requires 0 <= m < n <= |es|
  {
    exists x :: m < x < n && Answers(es[x], at)
  }

  /** A watched wake stays watched until it is answered. */
  lemma {:induction false} WatchedUntilAnswered(es: seq<Event>, m: int, n: int, at: int)
    requires 0 <= m < n <= |es| && After(INITIAL, es[..m + 1]).wake == Some(at)
    requires forall x :: m < x < n ==> !Stores(es[x])
    ensures After(INITIAL, es[..n]).wake == if AnsweredBetween(es, m, n, at) then None else Some(at)
    decreases n
  {
    if m + 1 < n {
      WatchedUntilAnswered(es, m, n - 1, at);
      assert es[..n][..n - 1] == es[..n - 1];
    }
  }

  /** Conversely every wake that is watched after event `m`, and that no later one replaces, is
      answered: at the first poll that sees the PC on or finds the limit reached, and only there. */
  lemma WakeIsAnsweredOnce(es: seq<Event>, m: int, k: int, at: int)
    requires 0 <= m < k < |es| && After(INITIAL, es[..m + 1]).wake == Some(at)
    requires forall x :: m < x < k ==> !Stores(es[x])
    ensures var notice := OutcomeAt(INITIAL, es, k).wake;
      && (notice.Some? <==> Answers(es[k], at) && !AnsweredBetween(es, m, k, at))
      && (notice.Some? ==> notice.value == if es[k].online then Succeeded else TimedOut)
  {
    WatchedUntilAnswered(es, m, k, at);
    hide AnsweredBetween, After;
  }

  /** From the instruction: a wake sent while the PC is off is answered by the first poll that sees
      the PC on, or finds three minutes gone; one sent while it is on is never answered. */
  lemma SentWakeIsAnsweredOnce(es: seq<Event>, m: int, k: int, at: int, pcOnline: bool)
    requires 0 <= m < k < |es| && es[m] == WakeSent(pcOnline, at)
    requires forall x :: m < x < k ==> !Stores(es[x])
    ensures var notice := OutcomeAt(INITIAL, es, k).wake;
      && (notice.Some? <==> !pcOnline && Answers(es[k], at) && !AnsweredBetween(es, m, k, at))
      && (notice.Some? ==> notice.value == if es[k].online then Succeeded else TimedOut)
  {
    assert es[..m + 1][..m] == es[..m];
    if pcOnline {
      UnwatchedStaysSilent(es, m, k);
    } else {
      WakeIsAnsweredOnce(es, m, k, at);
    }
  }

  lemma {:induction false} UnwatchedStaysSilent(es: seq<Event>, m: int, k: int)
    requires 0 <= m < k < |es| && After(INITIAL, es[..m + 1]).wake.None?
    requires forall x :: m < x < k ==> !Stores(es[x])
    ensures After(INITIAL, es[..k]).wake.None? && OutcomeAt(INITIAL, es, k).wake.None?
    decreases k
  {
    if m + 1 < k {
      UnwatchedStaysSilent(es, m, k - 1);
      assert es[..k][..k - 1] == es[..k - 1];
    }
  }

  /** A wake begun by the other thread during a poll survives exactly when the poll did not end
      the watch it had read. */
  lemma RacingWakeSurvivesExactlyWhen(p: Pipeline, online: bool, now: int, at: int)
    ensures Step(p, Poll(online, now, Some(Some(at)))).0.wake == Some(at) <==>
      !(p.wake.Some? && (online || now - p.wake.value >= 180))
  {
  }

  // ---------- Sleep suppresses the next "stopped", and only that ----------

  function Polls(es: seq<Event>): nat {
    if es == [] then 0 else Polls(es[..|es| - 1]) + (if es[|es| - 1].Poll? then 1 else 0)
  }

  ghost predicate AllPollsSee(es: seq<Event>, online: bool) {
    forall i :: 0 <= i < |es| && es[i].Poll? ==> es[i].online == online
  }

  lemma {:induction false} AfterConcat(p: Pipeline, a: seq<Event>, b: seq<Event>)
    ensures After(p, a + b) == After(After(p, a), b)
    ensures forall k :: 0 <= k < |a| ==> OutcomeAt(p, a + b, k) == OutcomeAt(p, a, k)
    ensures forall k :: 0 <= k < |b| ==> OutcomeAt(p, a + b, |a| + k) == OutcomeAt(After(p, a), b, k)
  {
    var es := a + b;
    forall k | 0 <= k < |a| ensures OutcomeAt(p, es, k) == OutcomeAt(p, a, k) {
      assert es[..k] == a[..k];
    }
    if b == [] {
      assert es == a;
    } else {
      var b' := b[..|b| - 1];
      assert es[..|es| - 1] == a + b';
      AfterConcat(p, a, b');
      forall k | 0 <= k < |b| ensures OutcomeAt(p, es, |a| + k) == OutcomeAt(After(p, a), b, k) {
        if k < |b'| {
          assert es[..|a| + k] == (a + b')[..|a| + k] && b[..k] == b'[..k];
          assert OutcomeAt(p, a + b', |a| + k) == OutcomeAt(After(p, a), b', k);
        } else {
          assert es[..|a| + k] == a + b' && b[..k] == b';
        }
      }
    }
  }

  /** While all polls are online, an accepted sleep stays armed for fewer than six polls. */
  lemma {:induction false} StaysArmed(p: Pipeline, es: seq<Event>)
    requires p.sleep == Armed(0) && AllPollsSee(es, true) && Polls(es) < SLEEP_ARM_MAX_POLLS
    ensures After(p, es).sleep.Armed? && After(p, es).sleep.polls <= Polls(es)
    ensures forall k :: 0 <= k < |es| ==> OutcomeAt(p, es, k).notice != Some(false)
  {
    if es != [] {
      var before := es[..|es| - 1];
      StaysArmed(p, before);
      forall k | 0 <= k < |es| ensures OutcomeAt(p, es, k).notice != Some(false) {
        if k < |before| {
          assert before[..k] == es[..k];
          assert OutcomeAt(p, before, k).notice != Some(false);
        }
      }
    }
  }

  /** An off baseline produces no "stopped" until a "started" or wake-succeeded notice. */
  lemma {:induction false} OffStaysQuiet(p: Pipeline, es: seq<Event>)
    requires p.stable.notifiedOnline == Some(false)
    requires forall k :: 0 <= k < |es| ==>
      OutcomeAt(p, es, k).notice != Some(true) && OutcomeAt(p, es, k).wake != Some(Succeeded)
    ensures After(p, es).stable.notifiedOnline == Some(false)
    ensures forall k :: 0 <= k < |es| ==> OutcomeAt(p, es, k).notice.None?
  {
    if es != [] {
      var before := es[..|es| - 1];
      forall k | 0 <= k < |before| ensures OutcomeAt(p, before, k) == OutcomeAt(p, es, k) {
        assert before[..k] == es[..k];
      }
      OffStaysQuiet(p, before);
      assert OutcomeAt(p, es, |es| - 1).notice != Some(true);
    }
  }

  lemma OffWhileArmed(p: Pipeline, off: Event)
    requires p.sleep.Armed? && off.Poll? && !off.online
    ensures After(p, [off]).stable.notifiedOnline == Some(false)
    ensures OutcomeAt(p, [off], 0).notice.None?
  {
    assert [off][..0] == [];
  }

  lemma SleepArms(p: Pipeline)
    ensures After(p, [SleepAccepted]).sleep == Armed(0)
    ensures OutcomeAt(p, [SleepAccepted], 0) == QUIET
  {
    assert [SleepAccepted][..0] == [];
  }

  /** After an accepted sleep, if the PC is first seen off within the next six polls, nothing
      reports "stopped" before the PC has been reported on again. `rest` is any continuation
      without such a report; further sleeps and wakes may be mixed in anywhere. */
  lemma SleepSilencesStopped(p: Pipeline, armed: seq<Event>, off: Event, rest: seq<Event>, k: int)
    requires AllPollsSee(armed, true) && Polls(armed) < 6
    requires off.Poll? && !off.online
    requires var q := After(p, [SleepAccepted] + armed + [off]);
      forall m :: 0 <= m < |rest| ==>
        OutcomeAt(q, rest, m).notice != Some(true) && OutcomeAt(q, rest, m).wake != Some(Succeeded)
    requires 0 <= k < |[SleepAccepted] + armed + [off] + rest|
    ensures OutcomeAt(p, [SleepAccepted] + armed + [off] + rest, k).notice != Some(false)
  {
    hide Step, After, AllPollsSee;
    var start := [SleepAccepted] + armed;
    var p1 := After(p, [SleepAccepted]);
    SleepArms(p);
    AfterConcat(p, [SleepAccepted], armed);
    StaysArmed(p1, armed);
    AfterConcat(p, start, [off]);
    var p2 := After(p, start);
    OffWhileArmed(p2, off);
    AfterConcat(p, start + [off], rest);
    OffStaysQuiet(After(p, start + [off]), rest);
    if k == 0 {
      assert OutcomeAt(p, [SleepAccepted], 0) == QUIET;
    } else if k < |start| {
      assert OutcomeAt(p, start, 1 + (k - 1)) == OutcomeAt(p1, armed, k - 1);
    } else if k == |start| {
      assert OutcomeAt(p, start + [off], |start| + 0) == OutcomeAt(p2, [off], 0);
    } else {
      var m := k - |start + [off]|;
      assert OutcomeAt(p, start + [off] + rest, |start + [off]| + m) == OutcomeAt(After(p, start + [off]), rest, m);
    }
  }

  /** A sleep was accepted at `m`, none after it, and fewer than six polls up to `n` all saw the PC on. */
  ghost predicate StillOn(es: seq<Event>, m: int, n: int) {
    && 0 <= m < n <= |es| && es[m] == SleepAccepted && Polls(es[m + 1..n]) < 6
    && forall x :: m < x < n ==> es[x] != SleepAccepted && (es[x].Poll? ==> es[x].online)
  }

  /** Poll `n` saw the PC off, and so did every poll up to `k`, with no new sleep. */
  ghost predicate StillOff(es: seq<Event>, n: int, k: int) {
    && 0 <= n < k <= |es| && es[n].Poll?
    && forall x :: n <= x < k ==> es[x] != SleepAccepted && (es[x].Poll? ==> !es[x].online)
  }

  /** Exactly when an off is suppressed: it belongs to the first stretch of offline polls after an
      accepted sleep, and that stretch began within six polls. */
  lemma SuppressedExactlyWhen(es: seq<Event>, k: int)
    requires 0 <= k < |es|
    ensures OutcomeAt(INITIAL, es, k).suppressed <==>
      es[k].Poll? && exists m, n :: StillOn(es, m, n) && n <= k && StillOff(es, n, k + 1)
  {
    var before := es[..k];
    if OutcomeAt(INITIAL, es, k).suppressed {
      var m, n := FindSleep(es, k);
      assert StillOn(es, m, n) && StillOff(es, n, k + 1);
    }
    if m, n :| StillOn(es, m, n) && n <= k && StillOff(es, n, k + 1) {
      ArmedWhileOn(es, m, n);
      if n < k {
        SuppressingWhileOff(es, m, n, k);
      }
    }
  }

  lemma {:induction false} ArmedWhileOn(es: seq<Event>, m: int, n: int)
    requires StillOn(es, m, n)
    ensures After(INITIAL, es[..n]).sleep == Armed(Polls(es[m + 1..n]))
    decreases n
  {
    assert es[..n][..n - 1] == es[..n - 1];
    if m + 1 < n {
      assert es[m + 1..n][..n - m - 2] == es[m + 1..n - 1];
      ArmedWhileOn(es, m, n - 1);
    } else {
      assert es[m + 1..n] == [];
    }
  }

  lemma {:induction false} SuppressingWhileOff(es: seq<Event>, m: int, n: int, k: int)
    requires StillOn(es, m, n) && StillOff(es, n, k)
    ensures After(INITIAL, es[..k]).sleep == Suppressing
    decreases k
  {
    assert es[..k][..k - 1] == es[..k - 1];
    if n + 1 < k {
      SuppressingWhileOff(es, m, n, k - 1);
    } else {
      ArmedWhileOn(es, m, n);
    }
  }

  /** The sleep behind a phase; `n` is where the PC was first seen off, or `k` if it was not. */
  lemma {:induction false} FindSleep(es: seq<Event>, k: int) returns (m: int, n: int)
    requires 0 <= k <= |es| && !After(INITIAL, es[..k]).sleep.Idle?
    ensures StillOn(es, m, n) && n <= k
    ensures After(INITIAL, es[..k]).sleep.Armed? <==> n == k
    ensures n < k ==> StillOff(es, n, k)
    decreases k
  {
    assert es[..k][..k - 1] == es[..k - 1];
    if es[k - 1] == SleepAccepted {
      m, n := k - 1, k;
      assert es[k..k] == [];
    } else {
      m, n := FindSleep(es, k - 1);
      if n == k - 1 {
        ArmedWhileOn(es, m, n);
        assert es[m + 1..k][..k - m - 2] == es[m + 1..k - 1];
        if After(INITIAL, es[..k]).sleep.Armed? {
          n := k;
        }
      }
    }
  }

  /** Where `n` online polls and no new sleep lead, from a freshly armed watch. */
  ghost predicate SettlesOn(p: Pipeline, n: nat) {
    && p.sleep == (if n < SLEEP_ARM_MAX_POLLS then Armed(n) else Idle)
    && (n >= 1 ==> p.stable.notifiedOnline == Some(true)
                   || (n == 1 && p.stable.notifiedOnline == Some(false) && p.stable.notifyStreak >= 1))
    && (n >= 3 ==> p.stable.notifyStreak == 0)
  }

  lemma {:induction false} OnlinePollsSettle(p: Pipeline, es: seq<Event>)
    requires p.sleep == Armed(0) && AllPollsSee(es, true) && SleepAccepted !in es
    requires Polls(es) <= SLEEP_ARM_MAX_POLLS
    ensures SettlesOn(After(p, es), Polls(es))
  {
    if es != [] {
      OnlinePollsSettle(p, es[..|es| - 1]);
    }
  }

  /** From a settled, unsuppressed on state, offline polls count up to the notice. */
  lemma {:induction false} OfflinePollsCount(p: Pipeline, es: seq<Event>)
    requires p.sleep == Idle && p.stable == StableNotify(Some(true), 0)
    requires AllPollsSee(es, false) && SleepAccepted !in es && Polls(es) <= 1
    ensures After(p, es).sleep == Idle
    ensures After(p, es).stable == StableNotify(Some(true), Polls(es))
  {
    if es != [] {
      OfflinePollsCount(p, es[..|es| - 1]);
    }
  }

  /** If instead six polls are all online with no new sleep, suppression is over: the second of
      two further offline polls reports "stopped". */
  lemma SuppressionEnds(p: Pipeline, online: seq<Event>, offline: seq<Event>, last: Event)
    requires AllPollsSee(online, true) && SleepAccepted !in online && Polls(online) == 6
    requires AllPollsSee(offline, false) && SleepAccepted !in offline && Polls(offline) == 1
    requires last.Poll? && !last.online
    ensures var es := [SleepAccepted] + online + offline + [last];
      OutcomeAt(p, es, |es| - 1).notice == Some(false)
  {
    var p1 := After(p, [SleepAccepted]);
    assert [SleepAccepted][..0] == [];
    AfterConcat(p, [SleepAccepted], online);
    OnlinePollsSettle(p1, online);
    AfterConcat(p, [SleepAccepted] + online, offline);
    OfflinePollsCount(After(p1, online), offline);
    var es := [SleepAccepted] + online + offline + [last];
    assert es[..|es| - 1] == [SleepAccepted] + online + offline;
  }
}

/** Stable notification: a change is reported once it has been observed `n` times in a row
    (shared/notify-stable/src/lib.rs with n = 2, shared/battery/src/lib.rs with n = 5).
    The streak counter is proved against a specification that looks only at the history of
    observations. */
module Debounce {
  import opened Wrappers

  const STABLE_POLLS: nat := 2
  const POWER_NOTIFY_STABLE_POLLS: nat := 5

  function SaturatingIncrement(n: nat): nat {
    if n >= 255 then 255 else n + 1
  }

  /** PC state notification. */
  datatype StableNotify = StableNotify(notifiedOnline: Option<bool>, notifyStreak: nat) {
    function Poll(nowOnline: bool, wakeSucceeded: bool, suppressOff: bool): (StableNotify, bool) {
      if wakeSucceeded then (this, false)
      else if suppressOff then (StableNotify(Some(false), 0), false)
      else match notifiedOnline
        case None => (StableNotify(Some(nowOnline), notifyStreak), false)
        case Some(prev) =>
          if prev == nowOnline then (StableNotify(Some(prev), 0), false)
          else
            var streak := SaturatingIncrement(notifyStreak);
            if streak >= STABLE_POLLS then (StableNotify(Some(nowOnline), 0), true)
            else (StableNotify(Some(prev), streak), false)
    }
  }

  /** Power supply notification. */
  datatype PowerNotify = PowerNotify(notified: Option<bool>, streak: nat) {
    function Poll(observed: bool): (PowerNotify, bool) {
      match notified
      case None => (PowerNotify(Some(observed), 0), false)
      case Some(prev) =>
        if prev == observed then (PowerNotify(Some(prev), 0), false)
        else
          var next := SaturatingIncrement(streak);
          if next >= POWER_NOTIFY_STABLE_POLLS then (PowerNotify(Some(observed), 0), true)
          else (PowerNotify(Some(prev), next), false)
    }
  }

  // ---------- The common debouncer ----------

  datatype Debouncer = Debouncer(baseline: Option<bool>, streak: nat)

  function Poll(n: nat, d: Debouncer, x: bool): (Debouncer, bool) {
    match d.baseline
    case None => (Debouncer(Some(x), 0), false)
    case Some(b) =>
      if b == x then (Debouncer(Some(b), 0), false)
      else if d.streak + 1 >= n then (Debouncer(Some(x), 0), true)
      else (Debouncer(Some(b), d.streak + 1), false)
  }

  function After(n: nat, h: seq<bool>): Debouncer {
    if h == [] then Debouncer(None, 0) else Poll(n, After(n, h[..|h| - 1]), h[|h| - 1]).0
  }

  /** Whether the last observation of `h` is reported. */
  predicate Reports(n: nat, h: seq<bool>)
    requires h != []
  {
    Poll(n, After(n, h[..|h| - 1]), h[|h| - 1]).1
  }

  // ---------- The history specification ----------

  /** The value last reported, or taken silently from the first observation. */
  ghost function Baseline(n: nat, h: seq<bool>): Option<bool>
    decreases |h|, 1
  {
    if h == [] then None
    else if |h| == 1 || MustReport(n, h) then Some(h[|h| - 1])
    else Baseline(n, h[..|h| - 1])
  }

  /** The last `n` observations all differ from the baseline before the last one. */
  ghost predicate MustReport(n: nat, h: seq<bool>)
    requires h != []
    decreases |h|, 0
  {
    && n <= |h| && |h| > 1
    && var b := Baseline(n, h[..|h| - 1]);
       forall i :: |h| - n <= i < |h| ==> Some(h[i]) != b
  }

  /** `streak` counts the observations at the end of `h` that differ from the baseline. */
  ghost predicate CountsTrail(h: seq<bool>, b: bool, streak: nat) {
    && streak < |h|
    && (forall i :: |h| - streak <= i < |h| ==> h[i] != b)
    && h[|h| - streak - 1] == b
  }

  /** The counter implements the history specification. */
  lemma {:induction false} RefinesHistory(n: nat, h: seq<bool>)
    requires n >= 1 && h != []
    ensures After(n, h).baseline == Baseline(n, h) && Baseline(n, h).Some?
    ensures CountsTrail(h, Baseline(n, h).value, After(n, h).streak) && After(n, h).streak < n
    ensures Reports(n, h) <==> MustReport(n, h)
  {
    if |h| > 1 {
      var before := h[..|h| - 1];
      RefinesHistory(n, before);
      var b, streak, x := Baseline(n, before).value, After(n, before).streak, h[|h| - 1];
      assert forall i :: 0 <= i < |before| ==> before[i] == h[i];
      if x != b {
        assert forall i :: |h| - (streak + 1) <= i < |h| ==> h[i] != b;
        if streak + 1 < n <= |h| {
          assert h[|h| - streak - 2] == b;
          assert |h| - n <= |h| - streak - 2;
        }
      } else {
        assert Some(h[|h| - 1]) == Some(b);
      }
    }
  }

  predicate ReportsAt(n: nat, h: seq<bool>, m: int)
    requires 0 <= m < |h|
  {
    Reports(n, h[..m + 1])
  }

  /** Consecutive reports alternate. */
  lemma ReportsAlternate(n: nat, h: seq<bool>, i: int, j: int)
    requires n >= 1 && 0 <= i < j < |h|
    requires ReportsAt(n, h, i) && ReportsAt(n, h, j)
    requires forall m :: i < m < j ==> !ReportsAt(n, h, m)
    ensures h[i] != h[j]
  {
    assert h[..j + 1][..j] == h[..j];
    BaselineHolds(n, h, i, j);
  }

  /** A reported value stays the baseline until the next report. */
  lemma {:induction false} BaselineHolds(n: nat, h: seq<bool>, i: int, j: int)
    requires n >= 1 && 0 <= i < j <= |h|
    requires ReportsAt(n, h, i)
    requires forall m :: i < m < j ==> !ReportsAt(n, h, m)
    ensures After(n, h[..j]).baseline == Some(h[i])
    decreases j
  {
    var now := h[..j];
    assert now[..j - 1] == h[..j - 1] && now[j - 1] == h[j - 1];
    if j > i + 1 {
      BaselineHolds(n, h, i, j - 1);
      assert !ReportsAt(n, h, j - 1);
    }
  }

  function ReportCount(n: nat, h: seq<bool>): nat {
    if h == [] then 0
    else ReportCount(n, h[..|h| - 1]) + (if Reports(n, h) then 1 else 0)
  }

  /** Every report costs `n` observations, and the first observation is free. */
  lemma {:induction false} ReportsAreRare(n: nat, h: seq<bool>)
    requires n >= 1 && h != []
    ensures n * ReportCount(n, h) + After(n, h).streak < |h|
  {
    if |h| > 1 {
      ReportsAreRare(n, h[..|h| - 1]);
      RefinesHistory(n, h[..|h| - 1]);
      if Reports(n, h) {
        assert After(n, h[..|h| - 1]).streak == n - 1;
        assert n * ReportCount(n, h) == n * ReportCount(n, h[..|h| - 1]) + n;
      }
    } else {
      assert h[..0] == [];
    }
  }

  // ---------- The two instances ----------

  function StableRun(h: seq<bool>): StableNotify {
    if h == [] then StableNotify(None, 0) else StableRun(h[..|h| - 1]).Poll(h[|h| - 1], false, false).0
  }

  function PowerRun(h: seq<bool>): PowerNotify {
    if h == [] then PowerNotify(None, 0) else PowerRun(h[..|h| - 1]).Poll(h[|h| - 1]).0
  }

  /** Without wake success or suppression, PC notifications obey the history rule with n = 2. */
  lemma {:induction false} StableNotifyObeysHistory(h: seq<bool>)
    requires h != []
    ensures StableRun(h).notifiedOnline == Baseline(2, h)
    ensures StableRun(h).notifyStreak == After(2, h).streak
    ensures StableRun(h[..|h| - 1]).Poll(h[|h| - 1], false, false).1 <==> MustReport(2, h)
  {
    RefinesHistory(2, h);
    if |h| > 1 {
      StableNotifyObeysHistory(h[..|h| - 1]);
      RefinesHistory(2, h[..|h| - 1]);
    }
  }

  /** Power notifications obey the history rule with n = 5. */
  lemma {:induction false} PowerNotifyObeysHistory(h: seq<bool>)
    requires h != []
    ensures PowerRun(h).notified == Baseline(5, h)
    ensures PowerRun(h).streak == After(5, h).streak
    ensures PowerRun(h[..|h| - 1]).Poll(h[|h| - 1]).1 <==> MustReport(5, h)
  {
    RefinesHistory(5, h);
    if |h| > 1 {
      PowerNotifyObeysHistory(h[..|h| - 1]);
      RefinesHistory(5, h[..|h| - 1]);
    }
  }
}

/** Concurrent calls of `insert_once` (m5stack-pc-bridge/src/auth.rs). The concurrent map makes
    each size read, each `retain` and each insertion atomic; between those steps any thread may
    run. A thread reads the clock once, when its request arrives. */
module ReplayThreads {
  import opened ReplayGuard
  import opened ReplayLimits

  /** What a thread does next. */
  datatype Phase =
    | Idle
    | ReadSize(r: Request)        // first read: is the size a multiple of the stride?
    | ReadSizeAgain(r: Request)   // second read: is the store full?
    | Evict(r: Request)
    | CheckCapacity(r: Request)
    | Insert(r: Request)

  /** A step that touched the store with its clock reading, for the histories below. */
  datatype Access = Evicted(now: int) | Inserted(r: Request, accepted: bool)

  datatype System = System(seen: Store, threads: seq<Phase>, history: seq<Access>)

  ghost predicate Init(s: System) {
    && s.seen == map[] && s.history == []
    && forall t :: 0 <= t < |s.threads| ==> s.threads[t].Idle?
  }

  /** Thread `t` takes one step. */
  ghost predicate Step(p: Params, s: System, s': System, t: nat)
    requires p.stride > 0
  {
    && t < |s.threads|
    && |s'.threads| == |s.threads|
    && s'.threads == s.threads[t := s'.threads[t]]
    && match s.threads[t]
       case Idle =>
         // A request that passed the skew and signature checks.
         && s'.seen == s.seen && s'.history == s.history
         && s'.threads[t].ReadSize?
         && var r := s'.threads[t].r;
            r.signed && AbsDiff(r.now, r.timestamp) <= AtLeastZero(p.skew)
       case ReadSize(r) =>
         && s'.seen == s.seen && s'.history == s.history
         && s'.threads[t] == if |s.seen| % p.stride == 0 then Evict(r) else ReadSizeAgain(r)
       case ReadSizeAgain(r) =>
         && s'.seen == s.seen && s'.history == s.history
         && s'.threads[t] == if |s.seen| >= p.capacity then Evict(r) else CheckCapacity(r)
       case Evict(r) =>
         && s'.seen == Unexpired(s.seen, r.now, p.skew)
         && s'.history == s.history + [Evicted(r.now)]
         && s'.threads[t] == CheckCapacity(r)
       case CheckCapacity(r) =>
         && s'.seen == s.seen && s'.history == s.history
         && s'.threads[t] == if !WellFormed(r.nonce) || |s.seen| >= p.capacity then Idle else Insert(r)
       case Insert(r) =>
         && s'.seen == s.seen[r.nonce := r.timestamp]
         && s'.history == s.history + [Inserted(r, r.nonce !in s.seen)]
         && s'.threads[t] == Idle
  }

  /** A run: `states[i + 1]` follows `states[i]` by a step of thread `who[i]`. */
  ghost predicate IsRun(p: Params, states: seq<System>, who: seq<nat>)
    requires p.stride > 0
  {
    && |states| == |who| + 1 && Init(states[0])
    && forall i :: 0 <= i < |who| ==> Step(p, states[i], states[i + 1], who[i])
  }

  // ---------- Size ----------

  /** Threads that passed the capacity check and have not inserted yet. */
  function Committed(threads: seq<Phase>): nat {
    if threads == [] then 0
    else Committed(threads[..|threads| - 1]) + (if threads[|threads| - 1].Insert? then 1 else 0)
  }

  lemma {:induction false} CommittedUpdate(threads: seq<Phase>, t: nat, q: Phase)
    requires t < |threads|
    ensures Committed(threads[t := q]) ==
      Committed(threads) - (if threads[t].Insert? then 1 else 0) + (if q.Insert? then 1 else 0)
  {
    var n := |threads| - 1;
    if t == n {
      assert threads[t := q][..n] == threads[..n];
    } else {
      CommittedUpdate(threads[..n], t, q);
      assert threads[t := q][..n] == threads[..n][t := q];
    }
  }

  lemma {:induction false} CommittedBound(threads: seq<Phase>)
    ensures Committed(threads) <= |threads|
    ensures (forall t :: 0 <= t < |threads| ==> threads[t].Idle?) ==> Committed(threads) == 0
  {
    if threads != [] {
      CommittedBound(threads[..|threads| - 1]);
    }
  }

  /** With `T` threads the store, plus the threads about to insert, never exceeds
      `capacity - 1 + T`. */
  ghost predicate SizeBounded(p: Params, s: System) {
    |s.seen| + Committed(s.threads) <= p.capacity - 1 + |s.threads|
  }

  lemma StepKeepsSizeBounded(p: Params, s: System, s': System, t: nat)
    requires p.stride > 0 && Step(p, s, s', t) && SizeBounded(p, s)
    ensures SizeBounded(p, s')
  {
    CommittedUpdate(s.threads, t, s'.threads[t]);
    match s.threads[t]
    case Evict(r) =>
      assert s'.seen.Keys <= s.seen.Keys;
      SubsetSize(s'.seen.Keys, s.seen.Keys);
      assert |s'.seen| == |s'.seen.Keys| && |s.seen| == |s.seen.Keys|;
    case CheckCapacity(r) =>
      CommittedBound(s'.threads);
      CommittedBound(s.threads);
    case Insert(r) =>
      assert s'.seen.Keys == s.seen.Keys + {r.nonce};
      assert |s'.seen| == |s'.seen.Keys| && |s.seen| == |s.seen.Keys|;
    case _ =>
  }

  lemma {:induction false} StoreStaysBounded(p: Params, states: seq<System>, who: seq<nat>)
    requires p.stride > 0 && p.capacity > 0 && IsRun(p, states, who)
    ensures SizeBounded(p, states[|who|])
    decreases |who|
  {
    var n := |who|;
    if n == 0 {
      CommittedBound(states[0].threads);
    } else {
      StoreStaysBounded(p, states[..n], who[..n - 1]);
      StepKeepsSizeBounded(p, states[n - 1], states[n], who[n - 1]);
    }
  }

  // ---------- At most once ----------

  function AccessTime(a: Access): int {
    match a
    case Evicted(now) => now
    case Inserted(r, _) => r.now
  }

  /** The store that a history of accesses leaves. */
  function StoreOf(h: seq<Access>, skew: int): Store {
    if h == [] then map[]
    else
      var seen := StoreOf(h[..|h| - 1], skew);
      match h[|h| - 1]
      case Evicted(now) => Unexpired(seen, now, skew)
      case Inserted(r, _) => seen[r.nonce := r.timestamp]
  }

  ghost predicate CheckedRequest(r: Request, skew: int) {
    r.signed && AbsDiff(r.now, r.timestamp) <= AtLeastZero(skew)
  }

  /** Every insertion passed the skew check, and was accepted exactly if its nonce was absent. */
  ghost predicate TrueHistory(h: seq<Access>, skew: int) {
    forall i :: 0 <= i < |h| && h[i].Inserted? ==>
      CheckedRequest(h[i].r, skew) && h[i].accepted == (h[i].r.nonce !in StoreOf(h[..i], skew))
  }

  /** The history explains the store, and every request in flight passed the skew check. */
  ghost predicate Explained(p: Params, s: System) {
    && s.seen == StoreOf(s.history, p.skew)
    && TrueHistory(s.history, p.skew)
    && forall t :: 0 <= t < |s.threads| && !s.threads[t].Idle? ==> CheckedRequest(s.threads[t].r, p.skew)
  }

  lemma StepKeepsExplained(p: Params, s: System, s': System, t: nat)
    requires p.stride > 0 && Step(p, s, s', t) && Explained(p, s)
    ensures Explained(p, s')
  {
    var h, h' := s.history, s'.history;
    if h' != h {
      assert h'[..|h|] == h;
      forall i | 0 <= i < |h'| && h'[i].Inserted?
        ensures CheckedRequest(h'[i].r, p.skew)
        ensures h'[i].accepted == (h'[i].r.nonce !in StoreOf(h'[..i], p.skew))
      {
        assert i < |h| ==> h'[..i] == h[..i];
      }
    }
  }

  lemma {:induction false} RunIsExplained(p: Params, states: seq<System>, who: seq<nat>)
    requires p.stride > 0 && IsRun(p, states, who)
    ensures Explained(p, states[|who|])
    decreases |who|
  {
    var n := |who|;
    if n > 0 {
      RunIsExplained(p, states[..n], who[..n - 1]);
      StepKeepsExplained(p, states[n - 1], states[n], who[n - 1]);
    }
  }

  /** The clock readings of successive evictions and insertions never decrease. */
  ghost predicate AccessesInOrder(h: seq<Access>) {
    forall i, j :: 0 <= i < j < |h| ==> AccessTime(h[i]) <= AccessTime(h[j])
  }

  ghost predicate OneTimestampPerInserted(h: seq<Access>) {
    forall i, j :: 0 <= i < |h| && 0 <= j < |h| && h[i].Inserted? && h[j].Inserted? && h[i].r.nonce == h[j].r.nonce
      ==> h[i].r.timestamp == h[j].r.timestamp
  }

  lemma {:induction false} AcceptedAccessIsGuarded(h: seq<Access>, k: int, skew: int)
    requires TrueHistory(h, skew) && AccessesInOrder(h) && OneTimestampPerInserted(h)
    requires 0 <= k < |h| && h[k].Inserted? && h[k].accepted
    ensures Guarded(StoreOf(h, skew), h[k].r.nonce, h[k].r.timestamp, AccessTime(h[|h| - 1]), skew)
    decreases |h|
  {
    var before := h[..|h| - 1];
    if k < |h| - 1 {
      forall i | 0 <= i < |before| ensures before[..i] == h[..i] {
      }
      AcceptedAccessIsGuarded(before, k, skew);
      assert AccessTime(h[|h| - 2]) <= AccessTime(h[|h| - 1]);
    }
  }

  /** At most once under interleaving: in every run whose store accesses happen in the order
      of their clock readings, no nonce is accepted by two insertions. */
  lemma NoNonceAcceptedTwiceConcurrently(p: Params, states: seq<System>, who: seq<nat>, i: int, j: int)
    requires p.stride > 0 && IsRun(p, states, who)
    requires AccessesInOrder(states[|who|].history) && OneTimestampPerInserted(states[|who|].history)
    requires 0 <= i < j < |states[|who|].history|
    requires states[|who|].history[i].Inserted? && states[|who|].history[i].accepted
    requires states[|who|].history[j].Inserted? && states[|who|].history[j].accepted
    ensures states[|who|].history[i].r.nonce != states[|who|].history[j].r.nonce
  {
    var h := states[|who|].history;
    RunIsExplained(p, states, who);
    var before := h[..j];
    forall k | 0 <= k < |before| ensures before[..k] == h[..k] {
    }
    AcceptedAccessIsGuarded(before, i, p.skew);
    assert AccessTime(h[j - 1]) <= AccessTime(h[j]);
  }

  // ---------- Exactly when a nonce comes back ----------

  /** `h[i]` inserts a nonce, and nothing up to `end` inserts it again. */
  ghost predicate LastInserted(h: seq<Access>, i: int, end: int) {
    && 0 <= i < end <= |h| && h[i].Inserted?
    && forall k :: i < k < end && h[k].Inserted? ==> h[k].r.nonce != h[i].r.nonce
  }

  /** An eviction at a time at which `timestamp` has expired. */
  predicate Expels(a: Access, timestamp: int, skew: int) {
    a.Evicted? && AbsDiff(a.now, timestamp) > AtLeastZero(skew)
  }

  lemma {:induction false} HeldUntilExpelled(h: seq<Access>, i: int, skew: int)
    requires LastInserted(h, i, |h|)
    ensures var seen := StoreOf(h, skew);
      && (h[i].r.nonce in seen <==> !exists m :: i < m < |h| && Expels(h[m], h[i].r.timestamp, skew))
      && (h[i].r.nonce in seen ==> seen[h[i].r.nonce] == h[i].r.timestamp)
    decreases |h|
  {
    var n := |h| - 1;
    if i < n {
      HeldUntilExpelled(h[..n], i, skew);
    }
  }

  /** Exactly when an insertion of a stored nonce is accepted again: some eviction in between ran
      at a time at which the stored timestamp had expired, in whatever order clocks were read. */
  lemma AcceptedAgainExactlyWhenExpelled(h: seq<Access>, i: int, j: int, skew: int)
    requires TrueHistory(h, skew) && LastInserted(h, i, j)
    requires j < |h| && h[j].Inserted? && h[j].r.nonce == h[i].r.nonce
    ensures h[j].accepted <==> exists m :: i < m < j && Expels(h[m], h[i].r.timestamp, skew)
  {
    HeldUntilExpelled(h[..j], i, skew);
  }

  ghost predicate AcceptsTwiceIn(h: seq<Access>, i: int, j: int) {
    && 0 <= i < j < |h| && h[i].Inserted? && h[j].Inserted?
    && h[i].accepted && h[j].accepted && h[i].r.nonce == h[j].r.nonce
  }

  ghost predicate ReopensIn(h: seq<Access>, i: int, m: int, j: int, skew: int) {
    && 0 <= i < m < j < |h| && LastInserted(h, i, j) && Expels(h[m], h[i].r.timestamp, skew)
    && h[j].Inserted? && h[j].r.nonce == h[i].r.nonce
  }

  /** Under any interleaving, a nonce is accepted twice exactly when an eviction expels it
      between two of its insertions. */
  lemma AcceptsTwiceConcurrentlyExactlyWhen(p: Params, states: seq<System>, who: seq<nat>)
    requires p.stride > 0 && IsRun(p, states, who)
    ensures var h := states[|who|].history;
      (exists i, j :: AcceptsTwiceIn(h, i, j)) <==> exists i, m, j :: ReopensIn(h, i, m, j, p.skew)
  {
    hide StoreOf, Step;
    var h := states[|who|].history;
    RunIsExplained(p, states, who);
    if i, j :| AcceptsTwiceIn(h, i, j) {
      var i' := LastInsertedBefore(h, i, j);
      AcceptedAgainExactlyWhenExpelled(h, i', j, p.skew);
      var m :| i' < m < j && Expels(h[m], h[i'].r.timestamp, p.skew);
      assert ReopensIn(h, i', m, j, p.skew);
    }
    if i, m, j :| ReopensIn(h, i, m, j, p.skew) {
      AcceptedAgainExactlyWhenExpelled(h, i, j, p.skew);
      var i' := FirstAcceptedIn(h, i, p.skew);
      assert AcceptsTwiceIn(h, i', j);
    }
  }

  lemma {:induction false} LastInsertedBefore(h: seq<Access>, i: int, j: int) returns (last: int)
    requires 0 <= i < j <= |h| && h[i].Inserted?
    ensures i <= last && LastInserted(h, last, j) && h[last].r.nonce == h[i].r.nonce
    decreases j
  {
    if h[j - 1].Inserted? && h[j - 1].r.nonce == h[i].r.nonce {
      last := j - 1;
    } else {
      last := LastInsertedBefore(h, i, j - 1);
    }
  }

  lemma {:induction false} HeldWasInserted(h: seq<Access>, nonce: string, skew: int) returns (i: int)
    requires nonce in StoreOf(h, skew)
    ensures 0 <= i < |h| && h[i].Inserted? && h[i].r.nonce == nonce
  {
    var last := h[|h| - 1];
    if last.Inserted? && last.r.nonce == nonce {
      i := |h| - 1;
    } else {
      i := HeldWasInserted(h[..|h| - 1], nonce, skew);
    }
  }

  lemma {:induction false} FirstAcceptedIn(h: seq<Access>, i: int, skew: int) returns (first: int)
    requires TrueHistory(h, skew) && 0 <= i < |h| && h[i].Inserted?
    ensures 0 <= first <= i && h[first].Inserted? && h[first].accepted && h[first].r.nonce == h[i].r.nonce
    decreases i
  {
    if h[i].accepted {
      first := i;
    } else {
      var k := HeldWasInserted(h[..i], h[i].r.nonce, skew);
      first := FirstAcceptedIn(h, k, skew);
    }
  }

  // ---------- A stale clock reading reopens any nonce ----------

  /** At every capacity and stride, and for every well-formed nonce: a thread that read the clock
      before another thread evicted inserts an accepted nonce again, although every nonce has
      one timestamp. */
  lemma StaleClockReadingReopensNonce(p: Params, nonce: string, t: int)
    returns (states: seq<System>, who: seq<nat>, i: nat, j: nat)
    requires p.stride > 0 && 1 <= p.capacity <= USIZE_MAX && WellFormed(nonce)
    ensures |states| == |who| + 1 && IsRun(p, states, who)
    ensures OneTimestampPerInserted(states[|who|].history)
    ensures AcceptsTwiceIn(states[|who|].history, i, j) && states[|who|].history[i].r.nonce == nonce
  {
    hide IsRun, WellFormed, EvictionDue, FilledStore, Filler, AllStampedAs, OneTimestampPerInserted, AcceptsTwiceIn;
    var first := Request(nonce, t, t, true);
    var n := Full(p) - 1;
    states, who := StaleRunStart(p, first);
    states, who := StaleRunFill(p, states, who, first, n);
    var h0 := states[|who|].history;
    FilledStoreIs(nonce, t, t, n);
    FillingEvictsNothing(n + 1, p);
    var other := Request(Filler(nonce, n), t + AtLeastZero(p.skew) + 1, t + AtLeastZero(p.skew) + 1, true);
    states, who := StaleRunEvict(p, states, who, first, other);
    states, who := StaleRunEnd(p, states, who, other, first);
    StampedHistory(h0, first, other.now);
    i, j := 1, |h0| + 2;
  }

  lemma StampedHistory(h0: seq<Access>, first: Request, later: int)
    requires AllStampedAs(h0, first)
    ensures var h := h0 + [Evicted(later)] + [Evicted(first.now), Inserted(first, true)];
      && OneTimestampPerInserted(h) && AcceptsTwiceIn(h, 1, |h0| + 2) && h[1].r == first
  {
  }

  /** Every insertion so far carries timestamp `t`, and the second access accepted `first`. */
  ghost predicate AllStampedAs(h: seq<Access>, first: Request) {
    && |h| >= 2 && h[1] == Inserted(first, true)
    && forall k :: 0 <= k < |h| && h[k].Inserted? ==> h[k].r.timestamp == first.timestamp
  }

  /** Thread 0 accepts the nonce. */
  lemma StaleRunStart(p: Params, first: Request) returns (states: seq<System>, who: seq<nat>)
    requires p.stride > 0 && p.capacity >= 1 && WellFormed(first.nonce)
    requires first.signed && first.now == first.timestamp
    ensures |states| == |who| + 1 && IsRun(p, states, who)
    ensures states[|who|].seen == map[first.nonce := first.timestamp]
    ensures states[|who|].threads == [Idle, Idle] && AllStampedAs(states[|who|].history, first)
  {
    states, who := [System(map[], [Idle, Idle], [])], [];
    assert IsRun(p, states, who);
    assert Unexpired(map[], first.now, p.skew) == map[];
    hide IsRun, Unexpired, WellFormed;
    states, who := ExtendRun(p, states, who, System(map[], [ReadSize(first), Idle], []), 0);
    states, who := ExtendRun(p, states, who, System(map[], [Evict(first), Idle], []), 0);
    var h := [Evicted(first.now)];
    states, who := ExtendRun(p, states, who, System(map[], [CheckCapacity(first), Idle], h), 0);
    states, who := ExtendRun(p, states, who, System(map[], [Insert(first), Idle], h), 0);
    states, who := ExtendRun(p, states, who,
      System(map[first.nonce := first.timestamp], [Idle, Idle], h + [Inserted(first, true)]), 0);
  }

  /** Thread 0 accepts `n` other nonces at the same time, without evicting. */
  lemma {:induction false} StaleRunFill(p: Params, states0: seq<System>, who0: seq<nat>, first: Request, n: nat)
    returns (states: seq<System>, who: seq<nat>)
    requires p.stride > 0 && p.capacity <= USIZE_MAX && n < Full(p) && IsRun(p, states0, who0)
    requires states0[|who0|].seen == map[first.nonce := first.timestamp]
    requires states0[|who0|].threads == [Idle, Idle] && AllStampedAs(states0[|who0|].history, first)
    ensures |states| == |who| + 1 && IsRun(p, states, who)
    ensures states[|who|].seen == FilledStore(first.nonce, first.timestamp, first.timestamp, n)
    ensures states[|who|].threads == [Idle, Idle] && AllStampedAs(states[|who|].history, first)
  {
    assert |states0| == |who0| + 1;
    hide IsRun, WellFormed;
    if n == 0 {
      states, who := states0, who0;
    } else {
      states, who := StaleRunFill(p, states0, who0, first, n - 1);
      var t := first.timestamp;
      FilledStoreIs(first.nonce, t, t, n - 1);
      FillersAreUsable(first.nonce, n - 1, n - 1);
      FillingEvictsNothing(n, p);
      states, who := InsertFresh(p, states, who, Request(Filler(first.nonce, n - 1), t, t, true));
    }
  }

  /** One undisturbed insertion of a new nonce, without eviction. */
  lemma InsertFresh(p: Params, states0: seq<System>, who0: seq<nat>, r: Request)
    returns (states: seq<System>, who: seq<nat>)
    requires p.stride > 0 && IsRun(p, states0, who0) && states0[|who0|].threads == [Idle, Idle]
    requires WellFormed(r.nonce) && CheckedRequest(r, p.skew) && r.nonce !in states0[|who0|].seen
    requires !EvictionDue(|states0[|who0|].seen|, p.capacity, p.stride)
    ensures |states| == |who| + 1 && IsRun(p, states, who) && states[|who|].threads == [Idle, Idle]
    ensures states[|who|].seen == states0[|who0|].seen[r.nonce := r.timestamp]
    ensures states[|who|].history == states0[|who0|].history + [Inserted(r, true)]
  {
    var s := states0[|who0|];
    hide IsRun, WellFormed;
    states, who := ExtendRun(p, states0, who0, s.(threads := [ReadSize(r), Idle]), 0);
    states, who := ExtendRun(p, states, who, s.(threads := [ReadSizeAgain(r), Idle]), 0);
    states, who := ExtendRun(p, states, who, s.(threads := [CheckCapacity(r), Idle]), 0);
    states, who := ExtendRun(p, states, who, s.(threads := [Insert(r), Idle]), 0);
    states, who := ExtendRun(p, states, who,
      System(s.seen[r.nonce := r.timestamp], [Idle, Idle], s.history + [Inserted(r, true)]), 0);
  }

  /** Thread 1 reads the clock and waits; thread 0 then evicts everything at a later time. */
  lemma StaleRunEvict(p: Params, states0: seq<System>, who0: seq<nat>, again: Request, other: Request)
    returns (states: seq<System>, who: seq<nat>)
    requires p.stride > 0 && IsRun(p, states0, who0)
    requires CheckedRequest(again, p.skew) && CheckedRequest(other, p.skew)
    requires var s := states0[|who0|];
      && s.threads == [Idle, Idle] && EvictionDue(|s.seen|, p.capacity, p.stride)
      && forall x :: x in s.seen ==> AbsDiff(other.now, s.seen[x]) > AtLeastZero(p.skew)
    ensures |states| == |who| + 1 && IsRun(p, states, who)
    ensures states[|who|] ==
      System(map[], [CheckCapacity(other), ReadSize(again)], states0[|who0|].history + [Evicted(other.now)])
  {
    assert |states0| == |who0| + 1;
    var s := states0[|who0|];
    assert Unexpired(s.seen, other.now, p.skew) == map[];
    hide IsRun, Unexpired;
    states, who := ExtendRun(p, states0, who0, s.(threads := [Idle, ReadSize(again)]), 1);
    states, who := ExtendRun(p, states, who, s.(threads := [ReadSize(other), ReadSize(again)]), 0);
    if |s.seen| % p.stride != 0 {
      states, who := ExtendRun(p, states, who, s.(threads := [ReadSizeAgain(other), ReadSize(again)]), 0);
    }
    states, who := ExtendRun(p, states, who, s.(threads := [Evict(other), ReadSize(again)]), 0);
    states, who := ExtendRun(p, states, who,
      System(map[], [CheckCapacity(other), ReadSize(again)], s.history + [Evicted(other.now)]), 0);
  }

  /** Thread 1 inserts its nonce into the emptied store. */
  lemma StaleRunEnd(p: Params, states0: seq<System>, who0: seq<nat>, other: Request, again: Request)
    returns (states: seq<System>, who: seq<nat>)
    requires p.stride > 0 && p.capacity >= 1 && IsRun(p, states0, who0) && WellFormed(again.nonce)
    requires states0[|who0|].seen == map[]
    requires states0[|who0|].threads == [CheckCapacity(other), ReadSize(again)]
    ensures |states| == |who| + 1 && IsRun(p, states, who)
    ensures states[|who|].history == states0[|who0|].history + [Evicted(again.now), Inserted(again, true)]
  {
    assert Unexpired(map[], again.now, p.skew) == map[];
    hide IsRun, Unexpired, WellFormed;
    var q, h := CheckCapacity(other), states0[|who0|].history;
    var h' := h + [Evicted(again.now)];
    states, who := ExtendRun(p, states0, who0, System(map[], [q, Evict(again)], h), 1);
    states, who := ExtendRun(p, states, who, System(map[], [q, CheckCapacity(again)], h'), 1);
    states, who := ExtendRun(p, states, who, System(map[], [q, Insert(again)], h'), 1);
    states, who := ExtendRun(p, states, who,
      System(map[again.nonce := again.timestamp], [q, Idle], h' + [Inserted(again, true)]), 1);
  }

  lemma ExtendRun(p: Params, states: seq<System>, who: seq<nat>, s: System, t: nat)
    returns (states': seq<System>, who': seq<nat>)
    requires p.stride > 0 && IsRun(p, states, who) && Step(p, states[|who|], s, t)
    ensures |states'| == |who'| + 1 && IsRun(p, states', who') && states'[|who'|] == s
  {
    states', who' := states + [s], who + [t];
  }
}

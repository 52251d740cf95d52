/** The bridge's replay guard (m5stack-pc-bridge/src/auth.rs): a bounded nonce store with
    lazy eviction, behind a two-sided clock-skew check. Capacity, thinning stride and skew
    are symbolic; the shipped store uses `MAX_ENTRIES` and `THINNING_STRIDE`. */
module ReplayGuard {
  import opened Wrappers

  const MAX_NONCE_LEN: nat := 64
  const MAX_ENTRIES: nat := 10_000
  const THINNING_STRIDE: nat := 100

  datatype AuthError = TimestampSkew | Replay | BadSignature

  type Store = map<string, int>

  function AbsDiff(a: int, b: int): nat {
    if a < b then b - a else a - b
  }

  function AtLeastZero(n: int): nat {
    if n < 0 then 0 else n
  }

  predicate IsNonceChar(c: char) {
    'a' <= c <= 'z' || 'A' <= c <= 'Z' || '0' <= c <= '9' || c == '-' || c == '_' || c == '.'
  }

  /** The empty nonce is well formed, as in the source. */
  predicate WellFormed(nonce: string) {
    |nonce| <= MAX_NONCE_LEN && forall i :: 0 <= i < |nonce| ==> IsNonceChar(nonce[i])
  }

  /** The entries that are not expired at `now`. */
  function Unexpired(seen: Store, now: int, ttl: int): (kept: Store)
    ensures forall n :: n in kept <==> n in seen && AbsDiff(now, seen[n]) <= AtLeastZero(ttl)
    ensures forall n :: n in kept ==> kept[n] == seen[n]
  {
    map n | n in seen && AbsDiff(now, seen[n]) <= AtLeastZero(ttl) :: seen[n]
  }

  predicate EvictionDue(size: nat, capacity: nat, stride: nat)
    requires stride > 0
  {
    size % stride == 0 || size >= capacity
  }

  /** Store after one call, and whether the call reported the nonce as new. */
  function Insertion(
    seen: Store, nonce: string, timestamp: int, now: int, ttl: int, capacity: nat, stride: nat
  ): (Store, bool)
    requires stride > 0
  {
    var thinned := if EvictionDue(|seen|, capacity, stride) then Unexpired(seen, now, ttl) else seen;
    if !WellFormed(nonce) || |thinned| >= capacity then (thinned, false)
    else (thinned[nonce := timestamp], nonce !in thinned)
  }

  class NonceStore {
    const capacity: nat
    const stride: nat
    var seen: Store

    ghost predicate Valid() {
      stride > 0
    }

    constructor ()
      ensures Valid() && seen == map[] && capacity == 10_000 && stride == 100
    {
      capacity, stride, seen := MAX_ENTRIES, THINNING_STRIDE, map[];
    }

    method EvictExpired(now: int, ttl: int)
      modifies this
      ensures seen == Unexpired(old(seen), now, ttl)
    {
      seen := map n | n in seen && AbsDiff(now, seen[n]) <= AtLeastZero(ttl) :: seen[n];
    }

    /** The insertion overwrites the stored timestamp even when it reports a replay. */
    method InsertOnce(nonce: string, timestamp: int, now: int, ttl: int) returns (inserted: bool)
      requires Valid()
      modifies this
      ensures (seen, inserted) == Insertion(old(seen), nonce, timestamp, now, ttl, capacity, stride)
    {
      if |seen| % stride == 0 || |seen| >= capacity {
        EvictExpired(now, ttl);
      }
      if |nonce| > MAX_NONCE_LEN || (exists i :: 0 <= i < |nonce| && !IsNonceChar(nonce[i])) || |seen| >= capacity {
        return false;
      }
      inserted := nonce !in seen;
      seen := seen[nonce := timestamp];
    }

    /** `signed` is the verdict of the HMAC check, which is not modelled. */
    method VerifyRequest(skew: int, r: Request) returns (result: Result<(), AuthError>)
      requires Valid()
      modifies this
      ensures (seen, result) == Verify(old(seen), r, Params(skew, capacity, stride))
    {
      if AbsDiff(r.now, r.timestamp) > AtLeastZero(skew) {
        return Err(TimestampSkew);
      }
      if !r.signed {
        return Err(BadSignature);
      }
      var inserted := InsertOnce(r.nonce, r.timestamp, r.now, skew);
      if !inserted {
        return Err(Replay);
      }
      return Ok(());
    }
  }

  // ---------- The window, in plain integers ----------

  /** `now` lies in the window around `timestamp`, which is the instant alone if `skew` is negative. */
  ghost predicate InWindow(now: int, timestamp: int, skew: int) {
    if skew >= 0 then timestamp - skew <= now <= timestamp + skew else now == timestamp
  }

  /** Verdicts in order: first the skew, then the signature. Only a signed request inside the
      window touches the store, and only such a request is a replay or is let through. */
  lemma VerdictIs(seen: Store, r: Request, p: Params)
    requires p.stride > 0
    ensures var (after, verdict) := Verify(seen, r, p);
      && (verdict == Err(TimestampSkew) <==> !InWindow(r.now, r.timestamp, p.skew))
      && (verdict == Err(BadSignature) <==> InWindow(r.now, r.timestamp, p.skew) && !r.signed)
      && (verdict == Err(Replay) || verdict == Ok(()) <==> InWindow(r.now, r.timestamp, p.skew) && r.signed)
      && (!InWindow(r.now, r.timestamp, p.skew) || !r.signed ==> after == seen)
  {
    hide Insertion;
  }

  /** Eviction keeps exactly the entries inside the same window. */
  lemma EvictionKeepsWindow(seen: Store, now: int, ttl: int, nonce: string)
    ensures nonce in Unexpired(seen, now, ttl) <==> nonce in seen && InWindow(now, seen[nonce], ttl)
    ensures nonce in Unexpired(seen, now, ttl) ==> Unexpired(seen, now, ttl)[nonce] == seen[nonce]
  {
  }

  /** The nonces that are let in: up to 64 of the ASCII codes of digits, upper-case and lower-case
      letters, hyphen, dot and underscore. */
  lemma WellFormedNonces(nonce: string)
    ensures WellFormed(nonce) <==>
      && |nonce| <= 64
      && forall i :: 0 <= i < |nonce| ==>
           var code := nonce[i] as int;
           48 <= code <= 57 || 65 <= code <= 90 || 97 <= code <= 122 || code == 45 || code == 46 || code == 95
  {
  }

  /** The store evicts at every hundredth entry and whenever it is full. */
  lemma EvictsEveryHundred(size: nat)
    ensures EvictionDue(size, 10_000, 100) <==> size >= 10_000 || exists k: nat :: size == 100 * k
  {
    if size % 100 == 0 {
      assert size == 100 * (size / 100);
    }
  }

  // ---------- One call ----------

  /** Exactly when a nonce is reported as new. Only the number of unexpired entries limits
      new nonces, although eviction is lazy; an unexpired stored nonce is always refused. */
  lemma AcceptedExactlyWhen(seen: Store, nonce: string, timestamp: int, now: int, ttl: int, capacity: nat, stride: nat)
    requires stride > 0
    ensures Insertion(seen, nonce, timestamp, now, ttl, capacity, stride).1 <==>
      && WellFormed(nonce)
      && |Unexpired(seen, now, ttl)| < capacity
      && (nonce in seen ==>
            EvictionDue(|seen|, capacity, stride) && nonce !in Unexpired(seen, now, ttl))
  {
    var kept := Unexpired(seen, now, ttl);
    assert kept.Keys <= seen.Keys;
    SubsetSize(kept.Keys, seen.Keys);
    assert |kept| == |kept.Keys| && |seen| == |seen.Keys|;
  }

  lemma SubsetSize<T>(a: set<T>, b: set<T>)
    requires a <= b
    ensures |a| <= |b|
  {
    assert b == a + (b - a);
  }

  /** A call loses no unexpired entry: other nonces keep their timestamps. */
  lemma UnexpiredEntriesSurvive(
    seen: Store, nonce: string, timestamp: int, now: int, ttl: int, capacity: nat, stride: nat, other: string)
    requires stride > 0
    requires other in Unexpired(seen, now, ttl) && other != nonce
    ensures var after := Insertion(seen, nonce, timestamp, now, ttl, capacity, stride).0;
      other in after && after[other] == seen[other]
  {
  }

  // ---------- Runs ----------

  datatype Request = Request(nonce: string, timestamp: int, now: int, signed: bool)

  datatype Params = Params(skew: int, capacity: nat, stride: nat)

  function Verify(seen: Store, r: Request, p: Params): (Store, Result<(), AuthError>)
    requires p.stride > 0
  {
    if AbsDiff(r.now, r.timestamp) > AtLeastZero(p.skew) then (seen, Err(TimestampSkew))
    else if !r.signed then (seen, Err(BadSignature))
    else
      var (after, inserted) := Insertion(seen, r.nonce, r.timestamp, r.now, p.skew, p.capacity, p.stride);
      (after, if inserted then Ok(()) else Err(Replay))
  }

  /** The store after a run, from an empty one. */
  function StoreAfter(rs: seq<Request>, p: Params): Store
    requires p.stride > 0
  {
    if rs == [] then map[]
    else Verify(StoreAfter(rs[..|rs| - 1], p), rs[|rs| - 1], p).0
  }

  predicate Accepted(rs: seq<Request>, k: int, p: Params)
    requires p.stride > 0 && 0 <= k < |rs|
  {
    Verify(StoreAfter(rs[..k], p), rs[k], p).1.Ok?
  }

  ghost predicate ClockNeverGoesBack(rs: seq<Request>) {
    forall i, j :: 0 <= i < j < |rs| ==> rs[i].now <= rs[j].now
  }

  /** The holder of the secret never signs one nonce with two timestamps. */
  ghost predicate OneTimestampPerNonce(rs: seq<Request>) {
    forall i, j :: 0 <= i < |rs| && 0 <= j < |rs| && rs[i].signed && rs[j].signed && rs[i].nonce == rs[j].nonce
      ==> rs[i].timestamp == rs[j].timestamp
  }

  /** The same for one nonce. */
  ghost predicate OneTimestampFor(rs: seq<Request>, nonce: string) {
    forall i, j :: 0 <= i < |rs| && 0 <= j < |rs| && rs[i].signed && rs[j].signed && rs[i].nonce == rs[j].nonce == nonce
      ==> rs[i].timestamp == rs[j].timestamp
  }

  /** Still stored under its timestamp, or so old at `now` that no request with that timestamp
      passes the skew check any more. */
  predicate Guarded(seen: Store, nonce: string, timestamp: int, now: int, skew: int) {
    || (nonce in seen && seen[nonce] == timestamp)
    || now > timestamp + AtLeastZero(skew)
  }

  /** A later request keeps the guard, whatever it is. */
  lemma GuardSurvives(seen: Store, r: Request, nonce: string, timestamp: int, now: int, p: Params)
    requires p.stride > 0 && now <= r.now
    requires Guarded(seen, nonce, timestamp, now, p.skew)
    requires timestamp <= now + AtLeastZero(p.skew)
    requires r.signed && r.nonce == nonce ==> r.timestamp == timestamp
    ensures Guarded(Verify(seen, r, p).0, nonce, timestamp, r.now, p.skew)
  {
  }

  /** Every nonce accepted during a run is guarded at its end. */
  lemma {:induction false} AcceptedNonceIsGuarded(rs: seq<Request>, k: int, p: Params)
    requires p.stride > 0 && ClockNeverGoesBack(rs)
    requires 0 <= k < |rs| && OneTimestampFor(rs, rs[k].nonce) && Accepted(rs, k, p)
    ensures Guarded(StoreAfter(rs, p), rs[k].nonce, rs[k].timestamp, rs[|rs| - 1].now, p.skew)
    ensures rs[k].timestamp <= rs[|rs| - 1].now + AtLeastZero(p.skew)
    decreases |rs|
  {
    var before := rs[..|rs| - 1];
    if k < |rs| - 1 {
      hide Verify;
      assert before[..k] == rs[..k];
      AcceptedNonceIsGuarded(before, k, p);
      GuardSurvives(StoreAfter(before, p), rs[|rs| - 1], rs[k].nonce, rs[k].timestamp, rs[|rs| - 2].now, p);
    }
  }

  /** At most once: while the clock never goes back, a nonce signed with one timestamp is never
      accepted twice, whatever happens to other nonces. */
  lemma NoNonceAcceptedTwice(rs: seq<Request>, i: int, j: int, p: Params)
    requires p.stride > 0 && ClockNeverGoesBack(rs)
    requires 0 <= i < j < |rs| && OneTimestampFor(rs, rs[i].nonce)
    requires Accepted(rs, i, p) && Accepted(rs, j, p)
    ensures rs[i].nonce != rs[j].nonce
  {
    var before := rs[..j];
    assert before[..i] == rs[..i];
    AcceptedNonceIsGuarded(before, i, p);
    if rs[i].nonce == rs[j].nonce {
      assert rs[j].timestamp == rs[i].timestamp;
      assert rs[j - 1].now <= rs[j].now;
      AcceptedExactlyWhen(StoreAfter(before, p),
        rs[j].nonce, rs[j].timestamp, rs[j].now, p.skew, p.capacity, p.stride);
    }
  }

  /** The store never outgrows its capacity in a sequential run. */
  lemma {:induction false} StoreIsBounded(rs: seq<Request>, p: Params)
    requires p.stride > 0
    ensures |StoreAfter(rs, p)| <= p.capacity
  {
    if rs != [] {
      var seen := StoreAfter(rs[..|rs| - 1], p);
      var r := rs[|rs| - 1];
      StoreIsBounded(rs[..|rs| - 1], p);
      var kept := Unexpired(seen, r.now, p.skew);
      assert kept.Keys <= seen.Keys;
      SubsetSize(kept.Keys, seen.Keys);
      assert |kept| == |kept.Keys| && |seen| == |seen.Keys|;
    }
  }

  // ---------- Exactly when a nonce comes back ----------

  predicate Checked(r: Request, p: Params) {
    r.signed && AbsDiff(r.now, r.timestamp) <= AtLeastZero(p.skew)
  }

  /** The request gets as far as the insertion, whatever that then reports. */
  predicate InsertsInto(seen: Store, r: Request, p: Params)
    requires p.stride > 0
  {
    && Checked(r, p) && WellFormed(r.nonce)
    && |if EvictionDue(|seen|, p.capacity, p.stride) then Unexpired(seen, r.now, p.skew) else seen| < p.capacity
  }

  /** The request takes the evicting branch at a time at which `timestamp` has expired. */
  predicate Expires(seen: Store, r: Request, timestamp: int, p: Params)
    requires p.stride > 0
  {
    Checked(r, p) && EvictionDue(|seen|, p.capacity, p.stride) && AbsDiff(r.now, timestamp) > AtLeastZero(p.skew)
  }

  lemma OneRequest(seen: Store, r: Request, p: Params)
    requires p.stride > 0
    ensures InsertsInto(seen, r, p) ==>
      var after := Verify(seen, r, p).0; r.nonce in after && after[r.nonce] == r.timestamp
    ensures Verify(seen, r, p).1.Ok? <==>
      InsertsInto(seen, r, p) && (r.nonce in seen ==> Expires(seen, r, seen[r.nonce], p))
    ensures forall x :: !(InsertsInto(seen, r, p) && r.nonce == x) ==>
      var after := Verify(seen, r, p).0;
      && (x in after <==> x in seen && !Expires(seen, r, seen[x], p))
      && (x in after ==> after[x] == seen[x])
  {
    hide WellFormed;
  }

  predicate Inserts(rs: seq<Request>, k: int, p: Params)
    requires p.stride > 0 && 0 <= k < |rs|
  {
    InsertsInto(StoreAfter(rs[..k], p), rs[k], p)
  }

  predicate Forgets(rs: seq<Request>, m: int, timestamp: int, p: Params)
    requires p.stride > 0 && 0 <= m < |rs|
  {
    Expires(StoreAfter(rs[..m], p), rs[m], timestamp, p)
  }

  /** From request `i` on, up to `end`, no request inserted the nonce of `i` again. */
  ghost predicate LastInsertion(rs: seq<Request>, i: int, end: int, p: Params)
    requires p.stride > 0 && 0 <= i < end <= |rs|
  {
    && Inserts(rs, i, p)
    && forall k :: i < k < end && rs[k].nonce == rs[i].nonce ==> !Inserts(rs, k, p)
  }

  /** Some request after `i` and before `end` forgets `timestamp`. */
  ghost predicate Forgotten(rs: seq<Request>, i: int, end: int, timestamp: int, p: Params)
    requires p.stride > 0 && 0 <= i < end <= |rs|
  {
    exists m :: i < m < end && Forgets(rs, m, timestamp, p)
  }

  /** What a request did is decided by the requests up to it. */
  lemma PrefixesAgree(rs: seq<Request>, n: nat, p: Params)
    requires p.stride > 0 && n <= |rs|
    ensures forall k :: 0 <= k < n ==>
      Inserts(rs[..n], k, p) == Inserts(rs, k, p) && Accepted(rs[..n], k, p) == Accepted(rs, k, p)
    ensures forall i, t :: 0 <= i < n ==> Forgotten(rs[..n], i, n, t, p) == Forgotten(rs, i, n, t, p)
  {
    hide Verify, StoreAfter, InsertsInto, Expires;
    assert forall k :: 0 <= k < n ==> rs[..n][..k] == rs[..k];
    forall i, t | 0 <= i < n ensures Forgotten(rs[..n], i, n, t, p) == Forgotten(rs, i, n, t, p) {
      assert forall m :: i < m < n ==> Forgets(rs[..n], m, t, p) == Forgets(rs, m, t, p);
    }
  }

  lemma ForgottenStep(rs: seq<Request>, i: int, n: int, timestamp: int, p: Params)
    requires p.stride > 0 && 0 <= i < n < |rs|
    ensures Forgotten(rs, i, n + 1, timestamp, p) <==>
      Forgotten(rs, i, n, timestamp, p) || Forgets(rs, n, timestamp, p)
  {
    hide Forgets;
  }

  /** A nonce is stored, under its last timestamp, until a request forgets it. */
  lemma {:induction false} StoredUntilForgotten(rs: seq<Request>, i: int, n: int, p: Params)
    requires p.stride > 0 && 0 <= i < n <= |rs| && LastInsertion(rs, i, n, p)
    ensures var seen := StoreAfter(rs[..n], p);
      && (rs[i].nonce in seen <==> !Forgotten(rs, i, n, rs[i].timestamp, p))
      && (rs[i].nonce in seen ==> seen[rs[i].nonce] == rs[i].timestamp)
    decreases n
  {
    var r, before := rs[n - 1], StoreAfter(rs[..n - 1], p);
    assert rs[..n][..n - 1] == rs[..n - 1];
    assert StoreAfter(rs[..n], p) == Verify(before, r, p).0;
    OneRequest(before, r, p);
    hide Verify, InsertsInto, Expires, StoreAfter;
    if i < n - 1 {
      StoredUntilForgotten(rs, i, n - 1, p);
      ForgottenStep(rs, i, n - 1, rs[i].timestamp, p);
      hide Forgotten;
      assert r.nonce == rs[i].nonce ==> !Inserts(rs, n - 1, p);
    }
  }

  /** Exactly when a nonce is accepted again: some request since its last insertion, possibly the
      one that presents it again, evicts at a time at which the stored timestamp has expired.
      No assumption about the clock or the signer. */
  lemma AcceptedAgainExactlyWhen(rs: seq<Request>, i: int, j: int, p: Params)
    requires p.stride > 0 && 0 <= i < j < |rs| && rs[i].nonce == rs[j].nonce
    requires LastInsertion(rs, i, j, p)
    ensures Accepted(rs, j, p) <==> Inserts(rs, j, p) && Forgotten(rs, i, j + 1, rs[i].timestamp, p)
  {
    StoredUntilForgotten(rs, i, j, p);
    OneRequest(StoreAfter(rs[..j], p), rs[j], p);
    ForgottenStep(rs, i, j, rs[i].timestamp, p);
    hide Verify, StoreAfter, InsertsInto, Expires, LastInsertion;
  }

  lemma {:induction false} StoredWasInserted(rs: seq<Request>, nonce: string, p: Params)
    returns (i: nat)
    requires p.stride > 0 && nonce in StoreAfter(rs, p)
    ensures i < |rs| && rs[i].nonce == nonce && LastInsertion(rs, i, |rs|, p)
  {
    var n := |rs| - 1;
    PrefixesAgree(rs, n, p);
    OneRequest(StoreAfter(rs[..n], p), rs[n], p);
    hide Verify, InsertsInto, Expires;
    if rs[n].nonce == nonce && Inserts(rs, n, p) {
      i := n;
    } else {
      i := StoredWasInserted(rs[..n], nonce, p);
    }
  }

  /** Request `m` forgets what request `i` inserted, and request `j` inserts it again. */
  ghost predicate Reopens(rs: seq<Request>, i: int, m: int, j: int, p: Params)
    requires p.stride > 0
  {
    && 0 <= i < m <= j < |rs| && rs[i].nonce == rs[j].nonce
    && LastInsertion(rs, i, j, p) && Inserts(rs, j, p) && Forgets(rs, m, rs[i].timestamp, p)
  }

  ghost predicate AcceptsTwice(rs: seq<Request>, i: int, j: int, p: Params)
    requires p.stride > 0
  {
    0 <= i < j < |rs| && rs[i].nonce == rs[j].nonce && Accepted(rs, i, p) && Accepted(rs, j, p)
  }

  /** A run accepts some nonce twice exactly when it reopens one. */
  lemma AcceptsTwiceExactlyWhen(rs: seq<Request>, p: Params)
    requires p.stride > 0
    ensures (exists i, j :: AcceptsTwice(rs, i, j, p)) <==> exists i, m, j :: Reopens(rs, i, m, j, p)
  {
    hide StoreAfter, Verify, Inserts, Forgets, Accepted;
    if i, j :| AcceptsTwice(rs, i, j, p) {
      AcceptedInserts(rs, i, p);
      AcceptedInserts(rs, j, p);
      var i' := LastBefore(rs, i, j, p);
      AcceptedAgainExactlyWhen(rs, i', j, p);
      var m :| i' < m < j + 1 && Forgets(rs, m, rs[i'].timestamp, p);
      assert Reopens(rs, i', m, j, p);
    }
    if i, m, j :| Reopens(rs, i, m, j, p) {
      AcceptedAgainExactlyWhen(rs, i, j, p);
      var i' := FirstAccepted(rs, i, p);
      assert AcceptsTwice(rs, i', j, p);
    }
  }

  lemma AcceptedInserts(rs: seq<Request>, k: int, p: Params)
    requires p.stride > 0 && 0 <= k < |rs| && Accepted(rs, k, p)
    ensures Inserts(rs, k, p)
  {
    OneRequest(StoreAfter(rs[..k], p), rs[k], p);
    hide StoreAfter, Verify, InsertsInto;
  }

  /** The last insertion of a nonce before request `j`, if there was one. */
  lemma {:induction false} LastBefore(rs: seq<Request>, i: int, j: int, p: Params) returns (last: int)
    requires p.stride > 0 && 0 <= i < j < |rs| && Inserts(rs, i, p)
    ensures i <= last < j && rs[last].nonce == rs[i].nonce && LastInsertion(rs, last, j, p)
    decreases j
  {
    if rs[j - 1].nonce == rs[i].nonce && Inserts(rs, j - 1, p) {
      last := j - 1;
    } else {
      last := LastBefore(rs, i, j - 1, p);
    }
  }

  /** The first insertion of a nonce is accepted. */
  lemma {:induction false} FirstAccepted(rs: seq<Request>, i: int, p: Params) returns (first: int)
    requires p.stride > 0 && 0 <= i < |rs| && Inserts(rs, i, p)
    ensures 0 <= first <= i && rs[first].nonce == rs[i].nonce && Accepted(rs, first, p)
    decreases i
  {
    OneRequest(StoreAfter(rs[..i], p), rs[i], p);
    hide StoreAfter, Verify, InsertsInto, Expires;
    if Accepted(rs, i, p) {
      first := i;
    } else {
      var k := StoredWasInserted(rs[..i], rs[i].nonce, p);
      PrefixesAgree(rs, i, p);
      first := FirstAccepted(rs, k, p);
    }
  }
}

/** Where at-most-once acceptance ends: for every size of the bridge's nonce store, runs that a
    careless signer or a clock that steps back opens to a replay, and from them the exact
    condition on the signer. */
module ReplayLimits {
  import opened Wrappers
  import opened Text
  import opened ReplayGuard

  const USIZE_MAX: nat := 0xFFFF_FFFF_FFFF_FFFF

  // ---------- Filling the store up to the next eviction ----------

  /** The size, from 1 on, at which eviction is due next. */
  function Full(p: Params): nat {
    if p.stride < p.capacity then p.stride else p.capacity
  }

  lemma FillingEvictsNothing(size: nat, p: Params)
    requires p.stride > 0 && 1 <= size <= Full(p)
    ensures EvictionDue(size, p.capacity, p.stride) <==> size == Full(p)
  {
    if size < p.stride {
      assert size % p.stride == size;
    }
  }

  /** Nonces that differ from `nonce` and from one another. */
  function Filler(nonce: string, i: nat): string {
    [if nonce != "" && nonce[0] == 'a' then 'b' else 'a'] + DecimalNat(i)
  }

  lemma FillersAreUsable(nonce: string, i: nat, j: nat)
    requires i <= USIZE_MAX
    ensures WellFormed(Filler(nonce, i)) && Filler(nonce, i) != nonce
    ensures Filler(nonce, i) == Filler(nonce, j) ==> i == j
  {
    hide DecimalNat;
    assert PowerOfTen(5) == 100_000;
    assert PowerOfTen(10) == 10_000_000_000;
    assert PowerOfTen(15) == 1_000_000_000_000_000;
    assert PowerOfTen(20) == 100_000_000_000_000_000_000;
    DecimalLength(i, 20);
    assert Filler(nonce, i)[1..] == DecimalNat(i) && Filler(nonce, j)[1..] == DecimalNat(j);
    NumeralOfDecimal(i);
    NumeralOfDecimal(j);
  }

  /** The store that holds `nonce` and the first `n` fillers. */
  function FilledStore(nonce: string, timestamp: int, fillTime: int, n: nat): Store {
    if n == 0 then map[nonce := timestamp]
    else FilledStore(nonce, timestamp, fillTime, n - 1)[Filler(nonce, n - 1) := fillTime]
  }

  lemma {:induction false} FilledStoreIs(nonce: string, timestamp: int, fillTime: int, n: nat)
    requires n <= USIZE_MAX
    ensures var seen := FilledStore(nonce, timestamp, fillTime, n);
      && |seen| == n + 1 && nonce in seen && seen[nonce] == timestamp
      && (forall x :: x in seen && x != nonce ==> seen[x] == fillTime)
      && forall k :: n <= k <= USIZE_MAX ==> Filler(nonce, k) !in seen
  {
    hide Filler;
    forall k | 0 <= k <= USIZE_MAX ensures Filler(nonce, k) != nonce {
      FillersAreUsable(nonce, k, k);
    }
    if n > 0 {
      FilledStoreIs(nonce, timestamp, fillTime, n - 1);
      forall k | n <= k <= USIZE_MAX ensures Filler(nonce, k) != Filler(nonce, n - 1) {
        FillersAreUsable(nonce, k, n - 1);
      }
    }
  }

  function Fill(nonce: string, at: int, n: nat): seq<Request> {
    seq(n, i requires 0 <= i < n => Request(Filler(nonce, i), at, at, true))
  }

  lemma AfterPush(rs: seq<Request>, r: Request, p: Params)
    requires p.stride > 0
    ensures StoreAfter(rs + [r], p) == Verify(StoreAfter(rs, p), r, p).0
    ensures Accepted(rs + [r], |rs|, p) <==> Verify(StoreAfter(rs, p), r, p).1.Ok?
    ensures forall k :: 0 <= k < |rs| ==> Accepted(rs + [r], k, p) == Accepted(rs, k, p)
  {
    assert (rs + [r])[..|rs|] == rs;
    PrefixesAgree(rs + [r], |rs|, p);
  }

  /** A run that leaves one entry goes on to fill the store, without evicting anything. */
  lemma {:induction false} AfterFill(rs: seq<Request>, nonce: string, timestamp: int, at: int, n: nat, p: Params)
    requires p.stride > 0 && p.capacity <= USIZE_MAX && n < Full(p)
    requires StoreAfter(rs, p) == map[nonce := timestamp]
    ensures StoreAfter(rs + Fill(nonce, at, n), p) == FilledStore(nonce, timestamp, at, n)
    ensures forall k :: 0 <= k < |rs| ==> Accepted(rs + Fill(nonce, at, n), k, p) == Accepted(rs, k, p)
  {
    hide StoreAfter, Filler, WellFormed;
    if n == 0 {
      assert rs + Fill(nonce, at, 0) == rs;
    } else {
      var before := rs + Fill(nonce, at, n - 1);
      var r := Request(Filler(nonce, n - 1), at, at, true);
      assert rs + Fill(nonce, at, n) == before + [r];
      AfterFill(rs, nonce, timestamp, at, n - 1, p);
      AfterPush(before, r, p);
      FilledStoreIs(nonce, timestamp, at, n - 1);
      FillersAreUsable(nonce, n - 1, n - 1);
      FillingEvictsNothing(n, p);
    }
  }

  // ---------- Signers ----------

  /** Every nonce but one is signed with one timestamp. */
  ghost predicate OneTimestampExceptFor(rs: seq<Request>, nonce: string) {
    forall i, j :: 0 <= i < |rs| && 0 <= j < |rs| && rs[i].nonce == rs[j].nonce != nonce
      ==> rs[i].timestamp == rs[j].timestamp
  }

  ghost predicate SignedOnlyAt(rs: seq<Request>, nonce: string, times: iset<int>) {
    forall i :: 0 <= i < |rs| && rs[i].signed && rs[i].nonce == nonce ==> rs[i].timestamp in times
  }

  lemma FillIs(nonce: string, at: int, n: nat)
    requires n <= USIZE_MAX
    ensures |Fill(nonce, at, n)| == n
    ensures forall i :: 0 <= i < n ==> var r := Fill(nonce, at, n)[i];
      r.nonce == Filler(nonce, i) != nonce && r.timestamp == at == r.now
  {
    forall i | 0 <= i < n ensures Filler(nonce, i) != nonce {
      FillersAreUsable(nonce, i, i);
    }
  }

  lemma StartRun(r: Request, p: Params)
    requires p.stride > 0 && p.capacity >= 1 && WellFormed(r.nonce) && Checked(r, p)
    ensures StoreAfter([r], p) == map[r.nonce := r.timestamp] && Accepted([r], 0, p)
  {
    assert [r][..0] == [];
    assert Unexpired(map[], r.now, p.skew) == map[];
  }

  /** A nonce signed with two timestamps is accepted with both: with the older one first, and
      with the newer one as soon as the older has been evicted. */
  lemma TwoTimestampsReopenNonce(nonce: string, lo: int, hi: int, p: Params) returns (rs: seq<Request>)
    requires p.stride > 0 && 1 <= p.capacity <= USIZE_MAX && WellFormed(nonce) && lo < hi
    ensures ClockNeverGoesBack(rs) && OneTimestampExceptFor(rs, nonce)
    ensures SignedOnlyAt(rs, nonce, iset{lo, hi})
    ensures AcceptsTwice(rs, 0, |rs| - 1, p) && rs[0].nonce == nonce
  {
    hide StoreAfter, WellFormed, Fill, FilledStore, Filler, Verify, Accepted;
    var n := Full(p) - 1;
    var skew := AtLeastZero(p.skew);
    var end := if lo + skew < hi then hi else lo + skew + 1;
    var first, last := Request(nonce, lo, lo, true), Request(nonce, hi, end, true);
    var fill := Fill(nonce, lo, n);
    FillIs(nonce, lo, n);
    StartRun(first, p);
    AfterFill([first], nonce, lo, lo, n, p);
    AfterPush([first] + fill, last, p);
    FilledStoreIs(nonce, lo, lo, n);
    FillingEvictsNothing(n + 1, p);
    AcceptedWhenAllExpire(FilledStore(nonce, lo, lo, n), last, p);
    rs := [first] + fill + [last];
    assert forall k :: 1 <= k <= n ==> rs[k] == fill[k - 1];
  }

  /** When eviction is due and everything stored has expired, a new request is accepted. */
  lemma AcceptedWhenAllExpire(seen: Store, r: Request, p: Params)
    requires p.stride > 0 && p.capacity >= 1 && WellFormed(r.nonce) && Checked(r, p)
    requires EvictionDue(|seen|, p.capacity, p.stride)
    requires forall x :: x in seen ==> AbsDiff(r.now, seen[x]) > AtLeastZero(p.skew)
    ensures Verify(seen, r, p) == (map[r.nonce := r.timestamp], Ok(()))
  {
    assert Unexpired(seen, r.now, p.skew) == map[];
  }

  /** A signer of `times` for `nonce` is safe: no run with a clock that never goes back accepts
      the nonce twice, whatever else is sent. */
  ghost predicate SafeSigner(nonce: string, times: iset<int>, p: Params)
    requires p.stride > 0
  {
    forall rs: seq<Request>, i, j ::
      ClockNeverGoesBack(rs) && SignedOnlyAt(rs, nonce, times) && AcceptsTwice(rs, i, j, p) ==> rs[i].nonce != nonce
  }

  /** Exactly one timestamp is what it takes, at every capacity, stride and skew. */
  lemma SignerIsSafeExactlyWhen(nonce: string, times: iset<int>, p: Params)
    requires p.stride > 0 && 1 <= p.capacity <= USIZE_MAX && WellFormed(nonce)
    ensures SafeSigner(nonce, times, p) <==> forall t, u :: t in times && u in times ==> t == u
  {
    hide StoreAfter, Accepted, WellFormed;
    if t, u :| t in times && u in times && t < u {
      var rs := TwoTimestampsReopenNonce(nonce, t, u, p);
      assert SignedOnlyAt(rs, nonce, times);
      assert !SafeSigner(nonce, times, p);
    } else {
      forall rs: seq<Request>, i, j |
        ClockNeverGoesBack(rs) && SignedOnlyAt(rs, nonce, times) && AcceptsTwice(rs, i, j, p)
        ensures rs[i].nonce != nonce
      {
        if rs[i].nonce == nonce {
          NoNonceAcceptedTwice(rs, i, j, p);
        }
      }
    }
  }

  // ---------- One request accepted twice ----------

  /** A refused request still overwrites the stored timestamp. Let two timestamps of a nonce be
      within twice the skew. Then the newer request itself is accepted twice: the older one, sent
      in between and refused, makes the entry expire early. A store of capacity 1 is spared,
      because there nothing is inserted over a stored entry. */
  lemma OverwriteReopensRequest(nonce: string, lo: int, hi: int, p: Params) returns (rs: seq<Request>)
    requires p.stride > 0 && 2 <= p.capacity <= USIZE_MAX && WellFormed(nonce)
    requires lo < hi <= lo + 2 * AtLeastZero(p.skew)
    ensures ClockNeverGoesBack(rs) && OneTimestampExceptFor(rs, nonce)
    ensures SignedOnlyAt(rs, nonce, iset{lo, hi})
    ensures AcceptsTwice(rs, 0, |rs| - 1, p) && !Accepted(rs, 1, p)
    ensures rs[0].nonce == nonce && rs[0].timestamp == rs[|rs| - 1].timestamp == hi
  {
    hide StoreAfter, WellFormed, Fill, FilledStore, Filler, Verify, Accepted;
    var n := Full(p) - 1;
    var skew := AtLeastZero(p.skew);
    var start, end := hi - skew, lo + skew + 1;
    var first, over := Request(nonce, hi, start, true), Request(nonce, lo, start, true);
    var last := Request(nonce, hi, end, true);
    var fill := Fill(nonce, start, n);
    FillIs(nonce, start, n);
    StartRun(first, p);
    assert [first] + [over] == [first, over];
    AfterPush([first], over, p);
    RefusedButOverwrites(first, over, p);
    AfterFill([first, over], nonce, lo, start, n, p);
    AfterPush([first, over] + fill, last, p);
    FilledStoreIs(nonce, lo, start, n);
    FillingEvictsNothing(n + 1, p);
    AcceptedWhenExpired(FilledStore(nonce, lo, start, n), last, p);
    rs := [first, over] + fill + [last];
    assert forall k :: 2 <= k <= n + 1 ==> rs[k] == fill[k - 2];
  }

  lemma RefusedButOverwrites(first: Request, over: Request, p: Params)
    requires p.stride > 0 && p.capacity >= 2 && WellFormed(over.nonce) && over.nonce == first.nonce
    requires Checked(first, p) && Checked(over, p) && first.now == over.now
    ensures Verify(map[first.nonce := first.timestamp], over, p) ==
      (map[first.nonce := over.timestamp], Err(Replay))
  {
    hide WellFormed;
    var seen := map[first.nonce := first.timestamp];
    assert Unexpired(seen, over.now, p.skew) == seen;
    assert |seen| == 1 && seen[over.nonce := over.timestamp] == map[first.nonce := over.timestamp];
  }

  /** When eviction is due, a request whose nonce has expired is accepted. */
  lemma AcceptedWhenExpired(seen: Store, r: Request, p: Params)
    requires p.stride > 0 && WellFormed(r.nonce) && Checked(r, p) && |seen| <= p.capacity
    requires EvictionDue(|seen|, p.capacity, p.stride)
    requires r.nonce in seen && AbsDiff(r.now, seen[r.nonce]) > AtLeastZero(p.skew)
    ensures Verify(seen, r, p).1.Ok?
  {
    hide WellFormed;
    var kept := Unexpired(seen, r.now, p.skew);
    assert kept.Keys <= seen.Keys - {r.nonce};
    SubsetSize(kept.Keys, seen.Keys - {r.nonce});
    assert |kept| == |kept.Keys| && |seen| == |seen.Keys|;
  }

  // ---------- A clock that steps back ----------

  /** An eviction at a later time forgets any nonce that an earlier time still lets through,
      although every nonce has one timestamp. */
  lemma SteppedBackClockReopensNonce(nonce: string, t: int, p: Params) returns (rs: seq<Request>)
    requires p.stride > 0 && 1 <= p.capacity <= USIZE_MAX && WellFormed(nonce)
    ensures OneTimestampPerNonce(rs)
    ensures AcceptsTwice(rs, 0, |rs| - 1, p) && rs[0] == rs[|rs| - 1] && rs[0].nonce == nonce
    ensures forall i, j :: 0 <= i < j < |rs| - 1 ==> rs[i].now <= rs[j].now
  {
    hide StoreAfter, WellFormed, Fill, FilledStore, Filler, Verify, Accepted;
    var n := Full(p) - 1;
    var later := t + AtLeastZero(p.skew) + 1;
    var first, other := Request(nonce, t, t, true), Request(Filler(nonce, n), later, later, true);
    var fill := Fill(nonce, t, n);
    FillIs(nonce, t, n);
    FillersAreUsable(nonce, n, n);
    StartRun(first, p);
    AfterFill([first], nonce, t, t, n, p);
    AfterPush([first] + fill, other, p);
    FilledStoreIs(nonce, t, t, n);
    FillingEvictsNothing(n + 1, p);
    AcceptedWhenAllExpire(FilledStore(nonce, t, t, n), other, p);
    AfterPush([first] + fill + [other], first, p);
    AcceptedBesideExpired(other, first, p);
    rs := [first] + fill + [other] + [first];
    assert forall k :: 1 <= k <= n ==> rs[k] == fill[k - 1];
    forall k | 0 <= k < n ensures fill[k].nonce != other.nonce {
      FillersAreUsable(nonce, k, n);
    }
  }

  lemma AcceptedBesideExpired(other: Request, r: Request, p: Params)
    requires p.stride > 0 && p.capacity >= 1 && WellFormed(r.nonce) && Checked(r, p)
    requires other.nonce != r.nonce && AbsDiff(r.now, other.timestamp) > AtLeastZero(p.skew)
    ensures Verify(map[other.nonce := other.timestamp], r, p).1.Ok?
  {
    hide WellFormed;
    assert Unexpired(map[other.nonce := other.timestamp], r.now, p.skew) == map[];
  }
}

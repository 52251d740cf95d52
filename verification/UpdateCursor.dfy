/** The getUpdates cursor (shared/telegram-cursor/src/lib.rs) and its protocol with the Bot API
    server (firmware/src/telegram.rs): arriving updates, polls, and responses that get lost. */
module UpdateCursor {

  /** What the firmware asks for; the protocol below holds for every limit. */
  const GET_UPDATES_LIMIT: nat := 1

  datatype CursorState = CursorState(offset: int, synced: bool)

  /** The smallest offset that is at least `offset` and beyond every id in `ids`. */
  function NextOffset(offset: int, ids: seq<int>): int {
    if ids == [] then offset
    else
      var o := NextOffset(offset, ids[..|ids| - 1]);
      var id := ids[|ids| - 1];
      if id >= o then id + 1 else o
  }

  lemma {:induction false} NextOffsetIsLeast(offset: int, ids: seq<int>)
    ensures offset <= NextOffset(offset, ids)
    ensures forall id :: id in ids ==> id < NextOffset(offset, ids)
    ensures NextOffset(offset, ids) == offset || NextOffset(offset, ids) - 1 in ids
  {
    if ids != [] {
      NextOffsetIsLeast(offset, ids[..|ids| - 1]);
      assert ids == ids[..|ids| - 1] + [ids[|ids| - 1]];
    }
  }

  class Cursor {
    var nextOffset: int
    var synced: bool

    ghost function State(): CursorState
      reads this
    {
      CursorState(nextOffset, synced)
    }

    constructor ()
      ensures State() == CursorState(0, false)
    {
      nextOffset, synced := 0, false;
    }

    /** Takes the ids of one response; says whether its updates may be dispatched. An empty
        response completes the start-up synchronisation. */
    method Advance(ids: seq<int>) returns (dispatch: bool)
      modifies this
      ensures nextOffset == NextOffset(old(nextOffset), ids)
      ensures dispatch == old(synced)
      ensures synced == (old(synced) || ids == [])
    {
      var empty := true;
      for i := 0 to |ids|
        invariant empty == (i == 0)
        invariant nextOffset == NextOffset(old(nextOffset), ids[..i])
        invariant synced == old(synced)
      {
        empty := false;
        assert ids[..i + 1][..i] == ids[..i];
        if ids[i] >= nextOffset {
          nextOffset := ids[i] + 1;
        }
      }
      assert ids[..|ids|] == ids;
      dispatch := synced;
      if empty {
        synced := true;
      }
    }
  }

  // ---------- The protocol ----------

  /** `arrived` is everything the server has ever been given, in order. `backlog` is how much of
      it had arrived when the first empty response was received. */
  datatype Session = Session(arrived: seq<int>, cursor: CursorState, dispatched: seq<int>, backlog: nat)

  /** `Received(n)` and `Lost(n)` are polls that the server answers with `n` updates. */
  datatype Action = Arrive(id: int) | Received(n: nat) | Lost(n: nat)

  const START := Session([], CursorState(0, false), [], 0)

  /** How many of the arrived updates lie below the offset: those the server has dropped. */
  function Confirmed(arrived: seq<int>, offset: int): (k: nat)
    ensures k <= |arrived|
  {
    if arrived == [] then 0
    else if arrived[|arrived| - 1] < offset then |arrived|
    else Confirmed(arrived[..|arrived| - 1], offset)
  }

  /** The server answers with a prefix, of at most `limit` updates, of those at or above the
      offset; an empty answer means that there are none. */
  predicate ServerAnswers(s: Session, n: nat, limit: nat) {
    var waiting := |s.arrived| - Confirmed(s.arrived, s.cursor.offset);
    n <= waiting && n <= limit && (n == 0 ==> waiting == 0)
  }

  predicate Enabled(s: Session, a: Action, limit: nat) {
    match a
    case Arrive(id) => id >= 0 && (s.arrived != [] ==> s.arrived[|s.arrived| - 1] < id)
    case Received(n) => ServerAnswers(s, n, limit)
    case Lost(n) => ServerAnswers(s, n, limit)
  }

  function Response(s: Session, n: nat): seq<int>
    requires n <= |s.arrived| - Confirmed(s.arrived, s.cursor.offset)
  {
    var k := Confirmed(s.arrived, s.cursor.offset);
    s.arrived[k..k + n]
  }

  function Next(s: Session, a: Action, limit: nat): Session
    requires Enabled(s, a, limit)
  {
    match a
    case Arrive(id) => s.(arrived := s.arrived + [id])
    case Lost(_) => s
    case Received(n) =>
      var ids := Response(s, n);
      s.(
        cursor := CursorState(NextOffset(s.cursor.offset, ids), s.cursor.synced || ids == []),
        dispatched := if s.cursor.synced then s.dispatched + ids else s.dispatched,
        backlog := if !s.cursor.synced && ids == [] then |s.arrived| else s.backlog)
  }

  ghost predicate IsSession(states: seq<Session>, actions: seq<Action>, limit: nat) {
    && |states| == |actions| + 1 && states[0] == START
    && forall i :: 0 <= i < |actions| ==>
         Enabled(states[i], actions[i], limit) && states[i + 1] == Next(states[i], actions[i], limit)
  }

  ghost predicate Increasing(ids: seq<int>) {
    forall i, j :: 0 <= i < j < |ids| ==> ids[i] < ids[j]
  }

  /** The offset separates the first `k` of the arrived updates from the rest. */
  ghost predicate Separates(arrived: seq<int>, offset: int, k: nat) {
    && k <= |arrived| && Increasing(arrived)
    && (forall i :: 0 <= i < |arrived| ==> arrived[i] >= 0)
    && (forall i :: 0 <= i < k ==> arrived[i] < offset)
    && (forall i :: k <= i < |arrived| ==> offset <= arrived[i])
    && offset == (if k == 0 then 0 else arrived[k - 1] + 1)
  }

  /** What has been dispatched is exactly the stretch of updates between the start-up backlog
      and the offset, each once, in id order. */
  ghost predicate DispatchedExactly(s: Session) {
    var k := Confirmed(s.arrived, s.cursor.offset);
    && Separates(s.arrived, s.cursor.offset, k)
    && (if s.cursor.synced then s.backlog <= k && s.dispatched == s.arrived[s.backlog..k]
        else s.dispatched == [])
  }

  lemma {:induction false} ConfirmedIs(arrived: seq<int>, offset: int, k: nat)
    requires k <= |arrived|
    requires k > 0 ==> arrived[k - 1] < offset
    requires forall i :: k <= i < |arrived| ==> offset <= arrived[i]
    ensures Confirmed(arrived, offset) == k
  {
    if k < |arrived| {
      ConfirmedIs(arrived[..|arrived| - 1], offset, k);
    }
  }

  lemma {:induction false} NextOffsetOfIncreasing(offset: int, ids: seq<int>)
    requires Increasing(ids) && forall i :: 0 <= i < |ids| ==> offset <= ids[i]
    ensures NextOffset(offset, ids) == if ids == [] then offset else ids[|ids| - 1] + 1
  {
    if ids != [] {
      NextOffsetOfIncreasing(offset, ids[..|ids| - 1]);
    }
  }

  lemma ArrivalSeparates(arrived: seq<int>, offset: int, k: nat, id: int)
    requires Separates(arrived, offset, k) && id >= 0
    requires arrived != [] ==> arrived[|arrived| - 1] < id
    ensures Separates(arrived + [id], offset, k) && Confirmed(arrived + [id], offset) == k
  {
    hide Confirmed;
    var more := arrived + [id];
    assert forall i :: 0 <= i < |arrived| ==> more[i] == arrived[i];
    ConfirmedIs(more, offset, k);
  }

  lemma ArrivalKeepsDispatchedExactly(s: Session, id: int, limit: nat)
    requires Enabled(s, Arrive(id), limit) && DispatchedExactly(s)
    ensures DispatchedExactly(Next(s, Arrive(id), limit))
  {
    hide Confirmed, Separates;
    var k := Confirmed(s.arrived, s.cursor.offset);
    ArrivalSeparates(s.arrived, s.cursor.offset, k, id);
    assert k <= |s.arrived|;
    if s.cursor.synced {
      assert (s.arrived + [id])[s.backlog..k] == s.arrived[s.backlog..k];
    }
  }

  lemma ResponseMovesOffset(arrived: seq<int>, offset: int, k: nat, n: nat)
    requires Separates(arrived, offset, k) && k + n <= |arrived|
    ensures var o := NextOffset(offset, arrived[k..k + n]);
      offset <= o && Separates(arrived, o, k + n) && Confirmed(arrived, o) == k + n
  {
    hide NextOffset, Confirmed;
    var ids := arrived[k..k + n];
    NextOffsetOfIncreasing(offset, ids);
    var o := NextOffset(offset, ids);
    if n > 0 {
      assert ids[n - 1] == arrived[k + n - 1];
    }
    ConfirmedIs(arrived, o, k + n);
  }

  lemma ResponseKeepsDispatchedExactly(s: Session, n: nat, limit: nat)
    requires Enabled(s, Received(n), limit) && DispatchedExactly(s)
    ensures DispatchedExactly(Next(s, Received(n), limit))
    ensures s.cursor.offset <= Next(s, Received(n), limit).cursor.offset
  {
    hide Confirmed, NextOffset, Separates;
    var k := Confirmed(s.arrived, s.cursor.offset);
    ResponseMovesOffset(s.arrived, s.cursor.offset, k, n);
    if s.cursor.synced {
      assert s.arrived[s.backlog..k] + s.arrived[k..k + n] == s.arrived[s.backlog..k + n];
    }
  }

  lemma StepKeepsDispatchedExactly(s: Session, a: Action, limit: nat)
    requires Enabled(s, a, limit) && DispatchedExactly(s)
    ensures DispatchedExactly(Next(s, a, limit))
    ensures s.cursor.offset <= Next(s, a, limit).cursor.offset
  {
    hide DispatchedExactly;
    match a {
      case Arrive(id) => ArrivalKeepsDispatchedExactly(s, id, limit);
      case Received(n) => ResponseKeepsDispatchedExactly(s, n, limit);
      case Lost(_) =>
    }
  }

  /** In every session the dispatched updates are exactly those that arrived after the start-up
      backlog and lie below the offset, in order. */
  lemma {:induction false} SessionDispatchesExactly(states: seq<Session>, actions: seq<Action>, limit: nat)
    requires IsSession(states, actions, limit)
    ensures DispatchedExactly(states[|actions|])
    decreases |actions|
  {
    hide DispatchedExactly, Next, Enabled;
    var n := |actions|;
    if n == 0 {
      StartIsExact();
    } else {
      SessionDispatchesExactly(states[..n], actions[..n - 1], limit);
      StepKeepsDispatchedExactly(states[n - 1], actions[n - 1], limit);
    }
  }

  lemma StartIsExact()
    ensures DispatchedExactly(START)
  {
  }

  /** The offset never decreases. */
  lemma OffsetNeverDecreases(states: seq<Session>, actions: seq<Action>, limit: nat, i: int)
    requires IsSession(states, actions, limit) && 0 <= i < |actions|
    ensures states[i].cursor.offset <= states[i + 1].cursor.offset
  {
    hide DispatchedExactly, Next, Enabled;
    SessionDispatchesExactly(states[..i + 1], actions[..i], limit);
    StepKeepsDispatchedExactly(states[i], actions[i], limit);
  }

  /** The backlog is everything that had arrived when the first empty response was received;
      until then the session is not synchronised. */
  lemma {:induction false} BacklogEndsAtFirstEmpty(states: seq<Session>, actions: seq<Action>, limit: nat)
    returns (i: nat)
    requires IsSession(states, actions, limit)
    ensures i <= |actions| && forall m :: 0 <= m < i ==> actions[m] != Received(0)
    ensures states[|actions|].cursor.synced <==> i < |actions|
    ensures i < |actions| ==> actions[i] == Received(0) && states[|actions|].backlog == |states[i].arrived|
    decreases |actions|
  {
    var n := |actions|;
    i := 0;
    if n > 0 {
      SyncStep(states[n - 1], actions[n - 1], limit);
      hide Next, Enabled;
      i := BacklogEndsAtFirstEmpty(states[..n], actions[..n - 1], limit);
      if i == n - 1 && actions[n - 1] != Received(0) {
        i := n;
      }
    }
  }

  /** Only an empty response completes the synchronisation, and it sets the backlog. */
  lemma SyncStep(s: Session, a: Action, limit: nat)
    requires Enabled(s, a, limit)
    ensures Next(s, a, limit).cursor.synced <==> s.cursor.synced || a == Received(0)
    ensures Next(s, a, limit).backlog == if !s.cursor.synced && a == Received(0) then |s.arrived| else s.backlog
  {
  }
}

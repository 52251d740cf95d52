/** The Telegram client driven by the getUpdates protocol (firmware/src/telegram.rs): updates
    arrive, responses get lost, and the client handles what it receives. */
module TelegramSession {
  import opened UpdateCursor
  import opened TelegramClient

  /** The updates behind a list of ids, with what the client reads while handling each. */
  function Handled(ids: seq<int>, content: int -> (Context, Update)): (us: seq<(Context, Update)>)
    ensures |us| == |ids| && forall i :: 0 <= i < |ids| ==> us[i] == content(ids[i])
  {
    seq(|ids|, i requires 0 <= i < |ids| => content(ids[i]))
  }

  /** The client over a whole session: what it has done is what the dispatched updates call for,
      each once and in order, however many responses were lost. */
  method RunSession(
    client: Client, states: seq<Session>, actions: seq<Action>, limit: nat, content: int -> (Context, Update))
    requires client.Valid() && client.log == [] && client.cursor.State() == START.cursor
    requires IsSession(states, actions, limit)
    modifies client, client.cursor
    ensures client.Valid() && client.cursor.State() == states[|actions|].cursor
    ensures client.log == HistoryAfter(client.s, Handled(states[|actions|].dispatched, content))
  {
    hide HistoryAfter, Extended, UpdateCursor.Confirmed, NextOffset;
    assert HistoryAfter(client.s, Handled(START.dispatched, content)) == [] by { NothingHandled(client.s, content); }
    for k := 0 to |actions|
      invariant client.Valid() && client.cursor.State() == states[k].cursor
      invariant client.log == HistoryAfter(client.s, Handled(states[k].dispatched, content))
    {
      assert Enabled(states[k], actions[k], limit) && states[k + 1] == Next(states[k], actions[k], limit);
      if actions[k].Received? {
        var ids := Response(states[k], actions[k].n);
        var batch := Handled(ids, content);
        client.ProcessUpdates(ids, batch);
        BatchesCompose(client.s, Handled(states[k].dispatched, content), batch);
        assert Handled(states[k].dispatched + ids, content) == Handled(states[k].dispatched, content) + batch;
      }
    }
  }

  lemma NothingHandled(s: Settings, content: int -> (Context, Update))
    ensures HistoryAfter(s, Handled([], content)) == []
  {
  }

  /** Hence across lost responses every effect has its confirmation, and only updates that came
      after the start-up backlog and lie below the offset took part. */
  lemma SessionEffectWasConfirmed(
    s: Settings, states: seq<Session>, actions: seq<Action>, limit: nat, content: int -> (Context, Update), k: int)
    returns (i: nat, j: nat)
    requires IsSession(states, actions, limit) && forall id :: Sound(s, content(id).0)
    requires var h := HistoryAfter(s, Handled(states[|actions|].dispatched, content));
      0 <= k < |h| && NeedsConfirmation(h[k])
    ensures var end := states[|actions|];
      && end.cursor.synced
      && var seen := UpdateCursor.Confirmed(end.arrived, end.cursor.offset);
      && end.backlog <= seen
      && var h := HistoryAfter(s, Handled(end.arrived[end.backlog..seen], content));
      && 0 <= k < |h| && h[k].Executed? && IsIssueOf(s, h, i, k)
      && j < seen - end.backlog && Confirms(content(end.arrived[end.backlog + j]).1, h[i].nonce, h[k].effect)
  {
    hide HistoryAfter, UpdateCursor.Confirmed, IsIssueOf, Separates, Confirms, EventsOf;
    SessionDispatchesExactly(states, actions, limit);
    NothingHandled(s, content);
    var us := Handled(states[|actions|].dispatched, content);
    forall m | 0 <= m < |us| ensures Sound(s, us[m].0) {
      var id := states[|actions|].dispatched[m];
      assert us[m] == content(id) && Sound(s, content(id).0);
    }
    i, j := EffectWasConfirmed(s, us, k);
  }
}

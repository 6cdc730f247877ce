/**
 * What the realtime handlers keep and promise over any sequence of events:
 * the `users` object always equals the map of joined sockets to their
 * nicknames, so the `update users` list is exactly the online nicknames, and
 * every broadcast chat message matches the row just stored.
 */
module HubProperties {
  import opened Wrappers
  import opened JsValues
  import opened MessageStore
  import opened RealtimeHub

  lemma InitialValid()
    ensures Valid(Initial)
  {
  }

  lemma JoinedOfFresh(connections: map<ConnId, Option<string>>, id: ConnId)
    requires id !in connections
    ensures JoinedNicknames(connections[id := None]) == JoinedNicknames(connections)
  {
  }

  lemma JoinedOfJoin(connections: map<ConnId, Option<string>>, id: ConnId, nickname: string)
    ensures JoinedNicknames(connections[id := Some(nickname)]) == JoinedNicknames(connections)[id := nickname]
  {
  }

  lemma JoinedOfLeave(connections: map<ConnId, Option<string>>, id: ConnId)
    ensures JoinedNicknames(connections - {id}) == JoinedNicknames(connections) - {id}
  {
  }

  /** A new connection is open but not joined, so the table is unchanged and still agrees. */
  lemma ConnectKeepsValid(h: Hub, historyOk: bool)
    requires Valid(h)
    ensures Valid(Connect(h, historyOk).hub)
  {
    assert h.nextId !in h.connections;
    JoinedOfFresh(h.connections, h.nextId);
  }

  /** A join adds or renames exactly its own key in the table. */
  lemma JoinKeepsValid(h: Hub, id: ConnId, nickname: string)
    requires Valid(h) && id in h.connections
    ensures Valid(Join(h, id, nickname).hub)
    ensures nickname != "" ==> UsersMap(Join(h, id, nickname).hub.users) == UsersMap(h.users)[id := nickname]
  {
    if nickname != "" {
      SetUserIsMapUpdate(h.users, id, nickname);
      JoinedOfJoin(h.connections, id, nickname);
    }
  }

  /** A disconnect removes exactly its own key from the table, if it had one. */
  lemma DisconnectKeepsValid(h: Hub, id: ConnId)
    requires Valid(h) && id in h.connections
    ensures Valid(Disconnect(h, id).hub)
    ensures UsersMap(Disconnect(h, id).hub.users) == UsersMap(h.users) - {id}
  {
    JoinedOfLeave(h.connections, id);
    if h.connections[id].Some? {
      RemoveUserIsMapRemove(h.users, id);
    } else {
      assert id !in UsersMap(h.users);
    }
  }

  lemma StepKeepsValid(h: Hub, e: Event)
    requires Valid(h)
    ensures Valid(Step(h, e).hub)
  {
    match e
    case Connected(ok) => ConnectKeepsValid(h, ok);
    case Joined(id, n) => if id in h.connections { JoinKeepsValid(h, id, n); }
    case ChatSent(id, d, o) =>
    case Disconnected(id) => if id in h.connections { DisconnectKeepsValid(h, id); }
  }

  /** From the initial state, any sequence of events leaves the table and the sockets in agreement. */
  lemma {:induction false} RunKeepsValid(h: Hub, events: seq<Event>)
    requires Valid(h)
    ensures Valid(Run(h, events))
    decreases |events|
  {
    if events != [] {
      StepKeepsValid(h, events[0]);
      RunKeepsValid(Step(h, events[0]).hub, events[1..]);
    }
  }

  /**
   * The `update users` list names the joined connections: entry `i` is the
   * current nickname of a joined connection, and every joined connection is
   * listed.
   */
  lemma OnlineListIsJoinedNicknames(h: Hub)
    requires Valid(h)
    ensures |Values(h.users)| == |h.users|
    ensures forall i :: 0 <= i < |h.users| ==>
              h.users[i].conn in h.connections && h.connections[h.users[i].conn] == Some(Values(h.users)[i])
    ensures forall c :: c in h.connections && h.connections[c].Some? ==>
              exists i :: 0 <= i < |h.users| && h.users[i].conn == c
  {
    forall i | 0 <= i < |h.users|
      ensures h.users[i].conn in h.connections && h.connections[h.users[i].conn] == Some(Values(h.users)[i])
    {
      UsersMapAt(h.users, i);
    }
    forall c | c in h.connections && h.connections[c].Some?
      ensures exists i :: 0 <= i < |h.users| && h.users[i].conn == c
    {
      var i := UsersMapLookup(h.users, c);
    }
  }

  /** A second `join` on the same connection renames it: the table has the new nickname and not the old. */
  lemma RejoinRenames(h: Hub, id: ConnId, first: string, second: string)
    requires Valid(h) && id in h.connections && first != "" && second != ""
    ensures var h1 := Join(h, id, first).hub;
            UsersMap(Join(h1, id, second).hub.users) == UsersMap(h.users)[id := second]
  {
    JoinKeepsValid(h, id, first);
    var h1 := Join(h, id, first).hub;
    assert id in h1.connections;
    JoinKeepsValid(h1, id, second);
    MapUpdateTwice(UsersMap(h.users), id, first, second);
  }

  lemma MapUpdateTwice(m: map<ConnId, string>, k: ConnId, a: string, b: string)
    ensures m[k := a][k := b] == m[k := b]
  {
  }

  /** A repeated `disconnect` finds no handler and emits nothing. */
  lemma LeaveTwiceIsSilent(h: Hub, id: ConnId)
    ensures var h1 := Step(h, Disconnected(id)).hub;
            Step(h1, Disconnected(id)) == Outcome(h1, [])
  {
  }

  /**
   * The as-written broadcast `b` agrees with the stored row `m` on nickname,
   * `msg` and `created_at`, and carries the row's type under `type`.
   */
  predicate AgreesAsWritten(b: JsObject, m: Message) {
    && Get(b, "nickname") == JStr(m.nickname)
    && Get(b, "msg") == m.content
    && Get(b, "created_at") == JTime(m.createdAt)
    && Get(b, "type") == m.messageType
  }

  /**
   * Every chat message the hub broadcasts, as written, matches the row it has
   * just stored: it comes from a joined connection and a successful INSERT.
   * It agrees with the newest row of the history a later connection loads
   * on nickname, `msg`, `created_at`, and on the type, which it carries as
   * `type`. When the database clock has not gone backwards, that row is the
   * newest in the store.
   */
  lemma BroadcastIsNewestHistoryRow(h: Hub, id: ConnId, data: JsObject, outcome: InsertOutcome)
    requires id in h.connections
    requires Chat(h, id, data, outcome).emits != []
    requires Chronological(h.store)
    requires outcome.Inserted? ==> forall i :: 0 <= i < |h.store| ==> h.store[i].createdAt <= outcome.createdAt
    ensures h.connections[id].Some? && outcome.Inserted?
    ensures var r := Chat(h, id, data, outcome);
            var st := r.hub.store;
            var rows := HistoryRows(st);
            && r.emits[0].payload.ChatMessage?
            && |st| == |h.store| + 1 && Chronological(st)
            && rows != [] && ParseWire(rows[|rows| - 1]) == Some(st[|h.store|])
            && AgreesAsWritten(r.emits[0].payload.message, st[|h.store|])
            && h.connections[id] == Some(st[|h.store|].nickname)
            && (forall i :: 0 <= i < |st| ==> st[i].createdAt <= st[|h.store|].createdAt)
  {
    var r := Chat(h, id, data, outcome);
    var st := r.hub.store;
    NewestRowIsLast(h, id, data, outcome, st);
  }

  /**
   * With the corrected broadcast, every broadcast chat message reads back as
   * exactly the newest row of the history a later connection loads.
   */
  lemma CorrectedBroadcastIsNewestHistoryRow(h: Hub, id: ConnId, data: JsObject, outcome: InsertOutcome)
    requires id in h.connections
    requires ChatCorrected(h, id, data, outcome).emits != []
    requires Chronological(h.store)
    requires outcome.Inserted? ==> forall i :: 0 <= i < |h.store| ==> h.store[i].createdAt <= outcome.createdAt
    ensures h.connections[id].Some? && outcome.Inserted?
    ensures var r := ChatCorrected(h, id, data, outcome);
            var st := r.hub.store;
            var rows := HistoryRows(st);
            && r.emits[0].payload.ChatMessage?
            && |st| == |h.store| + 1 && Chronological(st)
            && rows != [] && ParseWire(rows[|rows| - 1]) == Some(st[|h.store|])
            && ParseWire(r.emits[0].payload.message) == Some(st[|h.store|])
            && (forall i :: 0 <= i < |st| ==> st[i].createdAt <= st[|h.store|].createdAt)
  {
    var r := ChatCorrected(h, id, data, outcome);
    NewestRowIsLast(h, id, data, outcome, r.hub.store);
  }

  /** The store after a successful chat message: chronological, and its last row is the new one and the newest. */
  lemma NewestRowIsLast(h: Hub, id: ConnId, data: JsObject, outcome: InsertOutcome, st: Store)
    requires id in h.connections && h.connections[id].Some? && outcome.Inserted?
    requires st == h.store + [StoredMessage(data, h.connections[id].value, outcome.createdAt)]
    requires Chronological(h.store)
    requires forall i :: 0 <= i < |h.store| ==> h.store[i].createdAt <= outcome.createdAt
    ensures Chronological(st)
    ensures var rows := HistoryRows(st);
            rows != [] && ParseWire(rows[|rows| - 1]) == Some(st[|st| - 1])
    ensures forall i :: 0 <= i < |st| ==> st[i].createdAt <= st[|st| - 1].createdAt
  {
    var m := StoredMessage(data, h.connections[id].value, outcome.createdAt);
    assert st == Insert(h.store, m.nickname, m.content, m.messageType, outcome);
    InsertKeepsChronological(h.store, m.nickname, m.content, m.messageType, outcome.createdAt);
    HistoryRowsAreRecentHistory(st);
    var n := Min(HistoryLimit, |st|);
    assert |st| - n + (n - 1) == |st| - 1;
  }
}

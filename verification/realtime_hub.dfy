/**
 * The Socket.IO side of the server: the `users` table of online nicknames,
 * each connection's own `socket.nickname`, the message store, and the
 * `connection`, `join`, `chat message` and `disconnect` handlers. Every
 * handler is a pure transition returning the new state and the events it
 * emits, each tagged with its audience.
 */
module RealtimeHub {
  import opened Wrappers
  import opened JsValues
  import opened MessageStore

  /** `socket.id`. */
  type ConnId = nat

  /**
   * One property of the `users` object. Socket ids are non-numeric strings,
   * so `Object.values(users)` lists values in the order the keys were first
   * added; an association list in that order models the object exactly.
   */
  datatype Entry = Entry(conn: ConnId, nickname: string)

  ghost predicate DistinctConns(users: seq<Entry>) {
    forall i, j :: 0 <= i < j < |users| ==> users[i].conn != users[j].conn
  }

  /** The object as a map from socket id to nickname. */
  function UsersMap(users: seq<Entry>): map<ConnId, string>
    decreases |users|
  {
    if users == [] then map[]
    else UsersMap(users[..|users| - 1])[users[|users| - 1].conn := users[|users| - 1].nickname]
  }

  /** The ids listed in the table. */
  function Ids(users: seq<Entry>): set<ConnId> {
    set i | 0 <= i < |users| :: users[i].conn
  }

  /** The map's keys are the listed ids. */
  lemma {:induction false} UsersMapKeys(users: seq<Entry>)
    ensures UsersMap(users).Keys == Ids(users)
    decreases |users|
  {
    if users != [] {
      var init := users[..|users| - 1];
      UsersMapKeys(init);
      assert Ids(users) == Ids(init) + {users[|users| - 1].conn} by {
        forall c | c in Ids(users) ensures c in Ids(init) + {users[|users| - 1].conn} {
          var i :| 0 <= i < |users| && users[i].conn == c;
          if i < |users| - 1 {
            assert init[i].conn == c;
          }
        }
        forall c | c in Ids(init) ensures c in Ids(users) {
          var i :| 0 <= i < |init| && init[i].conn == c;
          assert users[i].conn == c;
        }
      }
    }
  }

  /** With distinct ids, the map sends each listed id to its listed nickname. */
  lemma UsersMapAt(users: seq<Entry>, i: nat)
    requires DistinctConns(users) && i < |users|
    ensures users[i].conn in UsersMap(users) && UsersMap(users)[users[i].conn] == users[i].nickname
    decreases |users|
  {
    if i < |users| - 1 {
      UsersMapAt(users[..|users| - 1], i);
    }
  }

  /** `Object.values(users)`. */
  function Values(users: seq<Entry>): (names: seq<string>)
    ensures |names| == |users|
    ensures forall i :: 0 <= i < |users| ==> names[i] == users[i].nickname
    decreases |users|
  {
    if users == [] then [] else [users[0].nickname] + Values(users[1..])
  }

  function IndexOf(users: seq<Entry>, id: ConnId): (k: nat)
    ensures k <= |users|
    ensures k < |users| ==> users[k].conn == id
    ensures forall i :: 0 <= i < k ==> users[i].conn != id
    decreases |users|
  {
    if users == [] then 0
    else if users[0].conn == id then 0
    else 1 + IndexOf(users[1..], id)
  }

  /**
   * `users[id] = nickname`: an existing property keeps its place and takes the
   * new value; a new one is added at the end.
   */
  function SetUser(users: seq<Entry>, id: ConnId, nickname: string): (r: seq<Entry>)
    ensures IndexOf(users, id) < |users| ==>
      |r| == |users| && r[IndexOf(users, id)] == Entry(id, nickname)
      && forall i :: 0 <= i < |users| && i != IndexOf(users, id) ==> r[i] == users[i]
    ensures IndexOf(users, id) == |users| ==> r == users + [Entry(id, nickname)]
  {
    var k := IndexOf(users, id);
    if k < |users| then users[k := Entry(id, nickname)] else users + [Entry(id, nickname)]
  }

  /** `delete users[id]`: every other property stays, in its order. */
  function RemoveUser(users: seq<Entry>, id: ConnId): (r: seq<Entry>)
    ensures forall e :: e in r <==> e in users && e.conn != id
    ensures |r| <= |users|
    ensures DistinctConns(users) ==> DistinctConns(r)
    decreases |users|
  {
    if users == [] then []
    else if users[0].conn == id then RemoveUser(users[1..], id)
    else [users[0]] + RemoveUser(users[1..], id)
  }

  /** Looking up an id in the map finds an entry listing it with that nickname. */
  lemma UsersMapLookup(users: seq<Entry>, c: ConnId) returns (i: nat)
    requires DistinctConns(users) && c in UsersMap(users)
    ensures i < |users| && users[i].conn == c && UsersMap(users)[c] == users[i].nickname
  {
    UsersMapKeys(users);
    i :| 0 <= i < |users| && users[i].conn == c;
    UsersMapAt(users, i);
  }

  /** Adding an entry in front of others with different ids adds its key. */
  lemma {:induction false} UsersMapCons(e: Entry, rest: seq<Entry>)
    requires forall i :: 0 <= i < |rest| ==> rest[i].conn != e.conn
    ensures UsersMap([e] + rest) == UsersMap(rest)[e.conn := e.nickname]
    decreases |rest|
  {
    if rest != [] {
      var init := rest[..|rest| - 1];
      var last := rest[|rest| - 1];
      assert ([e] + rest)[..|rest|] == [e] + init;
      UsersMapCons(e, init);
      assert last.conn != e.conn;
    }
  }

  /** Overwriting the entry of an id already listed updates that key in place. */
  lemma {:induction false} OverwriteIsMapUpdate(users: seq<Entry>, k: nat, nickname: string)
    requires DistinctConns(users) && k < |users|
    ensures UsersMap(users[k := Entry(users[k].conn, nickname)]) == UsersMap(users)[users[k].conn := nickname]
    decreases |users|
  {
    var id := users[k].conn;
    var r := users[k := Entry(id, nickname)];
    var init := users[..|users| - 1];
    if k == |users| - 1 {
      assert r[..|r| - 1] == init;
    } else {
      assert r[..|r| - 1] == init[k := Entry(id, nickname)];
      OverwriteIsMapUpdate(init, k, nickname);
      assert users[|users| - 1].conn != id;
    }
  }

  /** `users[id] = nickname` acts on the object exactly as a map update, and keeps ids distinct. */
  lemma SetUserIsMapUpdate(users: seq<Entry>, id: ConnId, nickname: string)
    requires DistinctConns(users)
    ensures DistinctConns(SetUser(users, id, nickname))
    ensures UsersMap(SetUser(users, id, nickname)) == UsersMap(users)[id := nickname]
  {
    var k := IndexOf(users, id);
    if k < |users| {
      SetUserExisting(users, id, nickname, k);
    } else {
      SetUserFresh(users, id, nickname);
    }
  }

  lemma SetUserExisting(users: seq<Entry>, id: ConnId, nickname: string, k: nat)
    requires DistinctConns(users) && k == IndexOf(users, id) && k < |users|
    ensures DistinctConns(SetUser(users, id, nickname))
    ensures UsersMap(SetUser(users, id, nickname)) == UsersMap(users)[id := nickname]
  {
    assert users[k].conn == id;
    assert SetUser(users, id, nickname) == users[k := Entry(users[k].conn, nickname)];
    OverwriteKeepsDistinct(users, k, nickname);
    OverwriteIsMapUpdate(users, k, nickname);
  }

  lemma SetUserFresh(users: seq<Entry>, id: ConnId, nickname: string)
    requires DistinctConns(users) && IndexOf(users, id) == |users|
    ensures DistinctConns(SetUser(users, id, nickname))
    ensures UsersMap(SetUser(users, id, nickname)) == UsersMap(users)[id := nickname]
  {
    var e := Entry(id, nickname);
    assert SetUser(users, id, nickname) == users + [e];
    AppendFreshKeepsDistinct(users, e);
    assert (users + [e])[..|users|] == users;
  }

  lemma OverwriteKeepsDistinct(users: seq<Entry>, k: nat, nickname: string)
    requires DistinctConns(users) && k < |users|
    ensures DistinctConns(users[k := Entry(users[k].conn, nickname)])
  {
  }

  lemma AppendFreshKeepsDistinct(users: seq<Entry>, e: Entry)
    requires DistinctConns(users)
    requires forall i :: 0 <= i < |users| ==> users[i].conn != e.conn
    ensures DistinctConns(users + [e])
  {
  }

  /** In a table with distinct ids, the head's id is listed nowhere else. */
  lemma HeadIdUnique(users: seq<Entry>)
    requires DistinctConns(users) && users != []
    ensures forall i :: 0 <= i < |users[1..]| ==> users[1..][i].conn != users[0].conn
  {
    forall i | 0 <= i < |users[1..]| ensures users[1..][i].conn != users[0].conn {
      assert users[1..][i] == users[i + 1];
    }
  }

  /** Entries drawn from `rest` cannot carry an id that `rest` does not list. */
  lemma SubsetKeepsAbsentId(r: seq<Entry>, rest: seq<Entry>, c: ConnId)
    requires forall e :: e in r ==> e in rest
    requires forall i :: 0 <= i < |rest| ==> rest[i].conn != c
    ensures forall i :: 0 <= i < |r| ==> r[i].conn != c
  {
    forall i | 0 <= i < |r| ensures r[i].conn != c {
      assert r[i] in rest;
      var j :| 0 <= j < |rest| && rest[j] == r[i];
    }
  }

  /** `delete users[id]` acts on the object exactly as removing the key. */
  lemma {:induction false} RemoveUserIsMapRemove(users: seq<Entry>, id: ConnId)
    requires DistinctConns(users)
    ensures UsersMap(RemoveUser(users, id)) == UsersMap(users) - {id}
    decreases |users|
  {
    if users != [] {
      var head, rest := users[0], users[1..];
      assert users == [head] + rest;
      HeadIdUnique(users);
      UsersMapCons(head, rest);
      assert DistinctConns(rest) by {
        forall i, j | 0 <= i < j < |rest| ensures rest[i].conn != rest[j].conn {
          assert rest[i] == users[i + 1] && rest[j] == users[j + 1];
        }
      }
      RemoveUserIsMapRemove(rest, id);
      if head.conn != id {
        RemoveKeepsHead(head, rest, id);
      } else {
        assert RemoveUser(users, id) == RemoveUser(rest, id);
        MapUpdateThenRemoveSame(UsersMap(rest), id, head.nickname);
      }
    }
  }

  /** Removing another id keeps the head's key and value. */
  lemma RemoveKeepsHead(head: Entry, rest: seq<Entry>, id: ConnId)
    requires head.conn != id
    requires forall i :: 0 <= i < |rest| ==> rest[i].conn != head.conn
    requires UsersMap([head] + rest) == UsersMap(rest)[head.conn := head.nickname]
    requires UsersMap(RemoveUser(rest, id)) == UsersMap(rest) - {id}
    ensures UsersMap(RemoveUser([head] + rest, id)) == UsersMap([head] + rest) - {id}
  {
    var r' := RemoveUser(rest, id);
    assert ([head] + rest)[1..] == rest;
    assert RemoveUser([head] + rest, id) == [head] + r';
    SubsetKeepsAbsentId(r', rest, head.conn);
    UsersMapCons(head, r');
    MapUpdateThenRemove(UsersMap(rest), head.conn, head.nickname, id);
  }

  lemma MapUpdateThenRemoveSame(m: map<ConnId, string>, k: ConnId, v: string)
    ensures m[k := v] - {k} == m - {k}
  {
  }

  lemma MapUpdateThenRemove(m: map<ConnId, string>, k: ConnId, v: string, d: ConnId)
    requires k != d
    ensures (m - {d})[k := v] == m[k := v] - {d}
  {
  }

  // ------------------------------------------------------------------ state

  /**
   * The server's realtime state: each open connection with its
   * `socket.nickname` (None until a successful join), the `users` object,
   * the message store, and the id the next connection receives.
   */
  datatype Hub = Hub(
    connections: map<ConnId, Option<string>>,
    users: seq<Entry>,
    store: Store,
    nextId: ConnId)

  const Initial: Hub := Hub(map[], [], [], 0)

  datatype Audience = Everyone | EveryoneBut(except: ConnId) | OnlyTo(target: ConnId)

  datatype Payload =
    | LoadHistory(rows: seq<JsObject>)
    | UpdateUsers(nicknames: seq<string>)
    | SystemMessage(text: string)
    | ChatMessage(message: JsObject)

  /** `io.emit`, `socket.broadcast.emit` or `socket.emit` of one event. */
  datatype Emit = Emit(to: Audience, payload: Payload)

  datatype Outcome = Outcome(hub: Hub, emits: seq<Emit>)

  function JoinNotice(nickname: string): string {
    "“" + nickname + "”加入了聊天室"
  }

  function LeaveNotice(nickname: string): string {
    "“" + nickname + "”离开了聊天室"
  }

  /** Each joined connection's `socket.nickname`, by id. */
  function JoinedNicknames(connections: map<ConnId, Option<string>>): (m: map<ConnId, string>)
    ensures forall c :: c in m <==> c in connections && connections[c].Some?
    ensures forall c :: c in m ==> connections[c] == Some(m[c])
  {
    map c | c in connections && connections[c].Some? :: connections[c].value
  }

  /**
   * The `users` object and the sockets agree: with distinct ids, the object
   * maps exactly the joined connections to their nicknames. Besides, every
   * id is below `nextId` and no nickname is empty.
   */
  ghost predicate Valid(h: Hub) {
    && DistinctConns(h.users)
    && UsersMap(h.users) == JoinedNicknames(h.connections)
    && (forall c :: c in h.connections ==> c < h.nextId)
    && (forall c :: c in h.connections && h.connections[c].Some? ==> h.connections[c].value != "")
  }

  // ------------------------------------------------------------------ handlers

  /** Each row in its wire shape. */
  function WireRows(ms: seq<Message>): (rows: seq<JsObject>)
    ensures |rows| == |ms|
    ensures forall i :: 0 <= i < |ms| ==> rows[i] == WireMessage(ms[i])
    decreases |ms|
  {
    if ms == [] then [] else [WireMessage(ms[0])] + WireRows(ms[1..])
  }

  /** The history rows: `content AS msg`, newest fifty, `.reverse()`d into ascending order. */
  function HistoryRows(st: Store): seq<JsObject> {
    WireRows(RecentHistory(st))
  }

  /** The history sent on connect is at most fifty rows that read back to the newest stored messages, oldest first. */
  lemma HistoryRowsAreRecentHistory(st: Store)
    ensures |HistoryRows(st)| == Min(HistoryLimit, |st|)
    ensures forall i :: 0 <= i < |HistoryRows(st)| ==>
              ParseWire(HistoryRows(st)[i]) == Some(st[|st| - Min(HistoryLimit, |st|) + i])
  {
    RecentHistoryIsNewestTail(st);
    forall i | 0 <= i < |HistoryRows(st)|
      ensures ParseWire(HistoryRows(st)[i]) == Some(st[|st| - Min(HistoryLimit, |st|) + i])
    {
      WireRoundTrip(RecentHistory(st)[i]);
    }
  }

  /**
   * A new connection: it gets a fresh id and no nickname, and, when the
   * history query succeeds, the history is sent to it alone.
   */
  function Connect(h: Hub, historyOk: bool): (r: Outcome)
    ensures h.nextId !in h.connections ==> |r.hub.connections| == |h.connections| + 1
    ensures r.hub.connections == h.connections[h.nextId := None]
    ensures r.hub.users == h.users && r.hub.store == h.store
    ensures historyOk ==> r.emits == [Emit(OnlyTo(h.nextId), LoadHistory(HistoryRows(h.store)))]
    ensures !historyOk ==> r.emits == []
  {
    var id := h.nextId;
    var h' := h.(connections := h.connections[id := None], nextId := id + 1);
    Outcome(h', if historyOk then [Emit(OnlyTo(id), LoadHistory(HistoryRows(h.store)))] else [])
  }

  /**
   * The `join` handler of connection `id`. An empty nickname is ignored;
   * otherwise the connection takes the nickname (a second join renames it),
   * the table maps its id to that nickname, everyone receives the new list of
   * online nicknames and everyone else the join notice.
   */
  function Join(h: Hub, id: ConnId, nickname: string): (r: Outcome)
    requires id in h.connections
    ensures nickname == "" ==> r == Outcome(h, [])
    ensures nickname != "" ==>
      && r.hub == h.(connections := r.hub.connections, users := r.hub.users)
      && r.hub.connections == h.connections[id := Some(nickname)]
      && r.emits == [Emit(Everyone, UpdateUsers(Values(r.hub.users))),
                     Emit(EveryoneBut(id), SystemMessage(JoinNotice(nickname)))]
    ensures nickname != "" ==> r.hub.users == SetUser(h.users, id, nickname)
  {
    if nickname != "" then
      var users' := SetUser(h.users, id, nickname);
      var h' := h.(connections := h.connections[id := Some(nickname)], users := users');
      Outcome(h', [Emit(Everyone, UpdateUsers(Values(users'))),
                   Emit(EveryoneBut(id), SystemMessage(JoinNotice(nickname)))])
    else Outcome(h, [])
  }

  /**
   * `{ ...data, nickname: socket.nickname, created_at }` exactly as the
   * handler builds it: the client's `type` travels along, but no
   * `message_type` is added (see `Broadcast`).
   */
  function BroadcastAsWritten(data: JsObject, nickname: string, createdAt: Timestamp): (b: JsObject)
    ensures b.Keys == data.Keys + {"nickname", "created_at"}
    ensures b["nickname"] == JStr(nickname) && b["created_at"] == JTime(createdAt)
    ensures forall k :: k in data && k != "nickname" && k != "created_at" ==> b[k] == data[k]
  {
    data["nickname" := JStr(nickname)]["created_at" := JTime(createdAt)]
  }

  /**
   * The corrected broadcast, emitted by `ChatCorrected`: as written, plus
   * `message_type` taken from the stored type, so the live message has the
   * same fields as a history row.
   */
  function Broadcast(data: JsObject, nickname: string, createdAt: Timestamp): (b: JsObject)
    ensures b.Keys == data.Keys + {"nickname", "created_at", "message_type"}
    ensures b["nickname"] == JStr(nickname) && b["created_at"] == JTime(createdAt)
    ensures b["message_type"] == Get(data, "type")
    ensures forall k :: k in data && k != "nickname" && k != "created_at" && k != "message_type" ==> b[k] == data[k]
  {
    BroadcastAsWritten(data, nickname, createdAt)["message_type" := Get(data, "type")]
  }

  /** The row `INSERT INTO messages (nickname, content, message_type) VALUES (nickname, data.msg, data.type)` stores. */
  function StoredMessage(data: JsObject, nickname: string, createdAt: Timestamp): Message {
    Message(nickname, Get(data, "msg"), Get(data, "type"), createdAt)
  }

  /**
   * The `chat message` handler of connection `id`, as written; `outcome` is
   * the database's answer to the INSERT. A connection that has not joined is
   * ignored, and so is a failed INSERT. Otherwise exactly one row is
   * appended, and one broadcast goes to everyone. The broadcast agrees with
   * the row on nickname, `msg` and `created_at`, and carries the row's type
   * under `type`. Its `message_type` is whatever the client sent under that
   * name, not the stored type (see `ChatCorrected`).
   */
  function Chat(h: Hub, id: ConnId, data: JsObject, outcome: InsertOutcome): (r: Outcome)
    requires id in h.connections
    ensures h.connections[id].None? || outcome.InsertFailed? ==> r == Outcome(h, [])
    ensures h.connections[id].Some? && outcome.Inserted? ==>
      var m := StoredMessage(data, h.connections[id].value, outcome.createdAt);
      && r.hub == h.(store := h.store + [m])
      && |r.emits| == 1 && r.emits[0].to == Everyone && r.emits[0].payload.ChatMessage?
      && var b := r.emits[0].payload.message;
      && Get(b, "nickname") == JStr(m.nickname) && Get(b, "created_at") == JTime(m.createdAt)
      && Get(b, "msg") == m.content && Get(b, "type") == m.messageType
      && Get(b, "message_type") == Get(data, "message_type")
      && ParseWire(b) == Some(m.(messageType := Get(data, "message_type")))
  {
    match h.connections[id]
    case None => Outcome(h, [])
    case Some(nickname) =>
      match outcome
      case InsertFailed => Outcome(h, [])
      case Inserted(t) =>
        var st' := Insert(h.store, nickname, Get(data, "msg"), Get(data, "type"), outcome);
        Outcome(h.(store := st'), [Emit(Everyone, ChatMessage(BroadcastAsWritten(data, nickname, t)))])
  }

  /**
   * The handler with the corrected broadcast: the same state change, and the
   * broadcast reads back as exactly the stored row.
   */
  function ChatCorrected(h: Hub, id: ConnId, data: JsObject, outcome: InsertOutcome): (r: Outcome)
    requires id in h.connections
    ensures h.connections[id].None? || outcome.InsertFailed? ==> r == Outcome(h, [])
    ensures h.connections[id].Some? && outcome.Inserted? ==>
      var m := StoredMessage(data, h.connections[id].value, outcome.createdAt);
      && r.hub == h.(store := h.store + [m])
      && |r.emits| == 1 && r.emits[0].to == Everyone && r.emits[0].payload.ChatMessage?
      && ParseWire(r.emits[0].payload.message) == Some(m)
    ensures r.hub == Chat(h, id, data, outcome).hub
  {
    match h.connections[id]
    case None => Outcome(h, [])
    case Some(nickname) =>
      match outcome
      case InsertFailed => Outcome(h, [])
      case Inserted(t) =>
        var st' := Insert(h.store, nickname, Get(data, "msg"), Get(data, "type"), outcome);
        Outcome(h.(store := st'), [Emit(Everyone, ChatMessage(Broadcast(data, nickname, t)))])
  }

  /**
   * The `disconnect` handler of connection `id`; the connection is gone
   * afterwards. A connection that never joined leaves silently; one that did
   * loses its table entry, and everyone receives the new list and the leave
   * notice.
   */
  function Disconnect(h: Hub, id: ConnId): (r: Outcome)
    requires id in h.connections
    ensures r.hub.connections == h.connections - {id}
    ensures r.hub.store == h.store && r.hub.nextId == h.nextId
    ensures h.connections[id].None? ==> r.hub.users == h.users && r.emits == []
    ensures h.connections[id].Some? ==>
      r.emits == [Emit(Everyone, UpdateUsers(Values(r.hub.users))),
                  Emit(Everyone, SystemMessage(LeaveNotice(h.connections[id].value)))]
    ensures h.connections[id].Some? ==> r.hub.users == RemoveUser(h.users, id)
  {
    var connections' := h.connections - {id};
    match h.connections[id]
    case None => Outcome(h.(connections := connections'), [])
    case Some(nickname) =>
      var users' := RemoveUser(h.users, id);
      var emits := [Emit(Everyone, UpdateUsers(Values(users'))),
                    Emit(Everyone, SystemMessage(LeaveNotice(nickname)))];
      Outcome(h.(connections := connections', users := users'), emits)
  }

  datatype Event =
    | Connected(historyOk: bool)
    | Joined(conn: ConnId, nickname: string)
    | ChatSent(conn: ConnId, data: JsObject, outcome: InsertOutcome)
    | Disconnected(conn: ConnId)

  /** One event; an event on a connection that is not open has no handler and changes nothing. */
  function Step(h: Hub, e: Event): Outcome {
    match e
    case Connected(ok) => Connect(h, ok)
    case Joined(id, n) => if id in h.connections then Join(h, id, n) else Outcome(h, [])
    case ChatSent(id, d, o) => if id in h.connections then Chat(h, id, d, o) else Outcome(h, [])
    case Disconnected(id) => if id in h.connections then Disconnect(h, id) else Outcome(h, [])
  }

  function Run(h: Hub, events: seq<Event>): Hub
    decreases |events|
  {
    if events == [] then h else Run(Step(h, events[0]).hub, events[1..])
  }
}

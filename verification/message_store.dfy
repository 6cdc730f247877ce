/**
 * The `messages` table: an append-only sequence of rows. The database
 * assigns `created_at`; an insert may fail (lost connection, a NOT NULL
 * column given no value), which the caller sees as `InsertFailed`.
 */
module MessageStore {
  import opened Wrappers
  import opened JsValues

  /** One row: the columns every query of the server selects. */
  datatype Message = Message(nickname: string, content: Json, messageType: Json, createdAt: Timestamp)

  type Store = seq<Message>

  /** Rows were appended in `created_at` order (the database clock never runs backwards). */
  ghost predicate Chronological(st: seq<Message>) {
    forall i, j :: 0 <= i < j < |st| ==> st[i].createdAt <= st[j].createdAt
  }

  /** `created_at` never increases along the sequence. */
  ghost predicate NewestToOldest(st: seq<Message>) {
    forall i, j :: 0 <= i < j < |st| ==> st[i].createdAt >= st[j].createdAt
  }

  /** What the database answers to an INSERT … RETURNING created_at. */
  datatype InsertOutcome = Inserted(createdAt: Timestamp) | InsertFailed

  /** INSERT INTO messages (nickname, content, message_type): the store only ever grows at its end. */
  function Insert(st: Store, nickname: string, content: Json, messageType: Json, outcome: InsertOutcome): (r: Store)
    ensures outcome.InsertFailed? ==> r == st
    ensures outcome.Inserted? ==>
      && |r| == |st| + 1 && r[..|st|] == st
      && r[|st|] == Message(nickname, content, messageType, outcome.createdAt)
  {
    match outcome
    case Inserted(t) => st + [Message(nickname, content, messageType, t)]
    case InsertFailed => st
  }

  /** A freshly stamped row keeps the store chronological when the clock has not gone backwards. */
  lemma InsertKeepsChronological(st: Store, nickname: string, content: Json, messageType: Json, t: Timestamp)
    requires Chronological(st)
    requires forall i :: 0 <= i < |st| ==> st[i].createdAt <= t
    ensures Chronological(Insert(st, nickname, content, messageType, Inserted(t)))
  {
  }

  function Reverse<T>(s: seq<T>): (r: seq<T>)
    ensures |r| == |s|
    ensures forall i :: 0 <= i < |s| ==> r[i] == s[|s| - 1 - i]
    decreases |s|
  {
    if s == [] then [] else Reverse(s[1..]) + [s[0]]
  }

  lemma ReverseReverse<T>(s: seq<T>)
    ensures Reverse(Reverse(s)) == s
  {
  }

  function Min(a: nat, b: nat): nat {
    if a <= b then a else b
  }

  /** The number of history rows sent to a connecting client. */
  const HistoryLimit: nat := 50

  /**
   * `ORDER BY created_at DESC LIMIT limit` over a store whose rows were
   * stamped in insertion order: the last `limit` rows, newest first.
   */
  function NewestFirst(st: Store, limit: nat): seq<Message> {
    Reverse(st[|st| - Min(limit, |st|)..])
  }

  /**
   * `NewestFirst` meets the ORDER BY … DESC LIMIT contract on a chronological
   * store: it holds `min(limit, |st|)` rows of the store, newest first, and no
   * row left out is newer than a row returned.
   */
  lemma NewestFirstIsOrderByLimit(st: Store, limit: nat)
    requires Chronological(st)
    ensures |NewestFirst(st, limit)| == Min(limit, |st|)
    ensures NewestToOldest(NewestFirst(st, limit))
    ensures multiset(NewestFirst(st, limit)) <= multiset(st)
    ensures forall i, j :: 0 <= i < |st| - Min(limit, |st|) && 0 <= j < |NewestFirst(st, limit)| ==>
              st[i].createdAt <= NewestFirst(st, limit)[j].createdAt
  {
    NewestFirstOrder(st, limit);
    NewestFirstRows(st, limit);
  }

  lemma NewestFirstOrder(st: Store, limit: nat)
    requires Chronological(st)
    ensures NewestToOldest(NewestFirst(st, limit))
    ensures forall i, j :: 0 <= i < |st| - Min(limit, |st|) && 0 <= j < |NewestFirst(st, limit)| ==>
              st[i].createdAt <= NewestFirst(st, limit)[j].createdAt
  {
    var k := |st| - Min(limit, |st|);
    var r := NewestFirst(st, limit);
    assert forall j :: 0 <= j < |r| ==> r[j] == st[|st| - 1 - j];
  }

  lemma NewestFirstRows(st: Store, limit: nat)
    ensures multiset(NewestFirst(st, limit)) <= multiset(st)
  {
    var k := |st| - Min(limit, |st|);
    assert st == st[..k] + st[k..];
    ReverseMultiset(st[k..]);
    assert multiset(st) == multiset(st[..k]) + multiset(st[k..]);
  }

  lemma ReverseMultiset<T>(s: seq<T>)
    ensures multiset(Reverse(s)) == multiset(s)
    decreases |s|
  {
    if s != [] {
      ReverseMultiset(s[1..]);
      assert s == [s[0]] + s[1..];
    }
  }

  /** The history a new connection receives: the newest rows, put back into ascending order. */
  function RecentHistory(st: Store): seq<Message> {
    Reverse(NewestFirst(st, HistoryLimit))
  }

  /**
   * The history is the last (at most fifty) rows of the store in their stored
   * order, so on a chronological store it is ascending and ends with the most
   * recent row.
   */
  lemma RecentHistoryIsNewestTail(st: Store)
    ensures |RecentHistory(st)| == Min(HistoryLimit, |st|) <= HistoryLimit
    ensures RecentHistory(st) == st[|st| - Min(HistoryLimit, |st|)..]
    ensures Chronological(st) ==> Chronological(RecentHistory(st))
  {
    ReverseReverse(st[|st| - Min(HistoryLimit, |st|)..]);
  }

  /**
   * A message stored successfully, stamped no earlier than the rows before
   * it, is the last and newest row of the history a later connection is
   * sent, and that history is in `created_at` order.
   */
  lemma InsertedIsLastInHistory(st: Store, nickname: string, content: Json, messageType: Json, t: Timestamp)
    requires Chronological(st)
    requires forall i :: 0 <= i < |st| ==> st[i].createdAt <= t
    ensures var h := RecentHistory(Insert(st, nickname, content, messageType, Inserted(t)));
            && h != [] && h[|h| - 1] == Message(nickname, content, messageType, t)
            && Chronological(h)
            && forall i :: 0 <= i < |h| ==> h[i].createdAt <= t
  {
    var st' := Insert(st, nickname, content, messageType, Inserted(t));
    InsertKeepsChronological(st, nickname, content, messageType, t);
    RecentHistoryIsNewestTail(st');
  }

  /** The wire shape of a row, `SELECT nickname, content AS msg, message_type, created_at`. */
  function WireMessage(m: Message): (o: JsObject)
    ensures o.Keys == {"nickname", "msg", "message_type", "created_at"}
  {
    map["nickname" := JStr(m.nickname), "msg" := m.content,
        "message_type" := m.messageType, "created_at" := JTime(m.createdAt)]
  }

  /** Reads a row back from its wire shape. */
  function ParseWire(o: JsObject): Option<Message> {
    if Get(o, "nickname").JStr? && Get(o, "created_at").JTime? then
      Some(Message(Get(o, "nickname").s, Get(o, "msg"), Get(o, "message_type"), Get(o, "created_at").t))
    else None
  }

  /** No column is lost on the wire: the row can be read back. */
  lemma WireRoundTrip(m: Message)
    ensures ParseWire(WireMessage(m)) == Some(m)
  {
  }
}

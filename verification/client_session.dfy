/**
 * The chat page's own state: the nickname it joined with, the message input
 * and whether the input is disabled while the connection is down, and what
 * it emits to the server when the user sends, picks a nickname, or the
 * connection comes back.
 */
module ClientSession {
  import opened Wrappers
  import Strings
  import opened JsValues
  import opened MessageStore
  import opened Kaomoji
  import opened RealtimeHub
  import opened MessageView

  /** What the page emits. */
  datatype ClientEmit = EmitJoin(nickname: string) | EmitChat(payload: JsObject)

  /** `myNickname`, `input.value`, and `input.disabled` (the send button follows it). */
  datatype Client = Client(nickname: string, input: string, disabled: bool)

  datatype Reaction = Reaction(client: Client, emits: seq<ClientEmit>)

  /** `sendMessage`: a non-empty input on an enabled page is sent as text and cleared. */
  function SendMessage(c: Client): (s: Reaction)
    ensures c.input != "" && !c.disabled ==>
              s == Reaction(c.(input := ""), [EmitChat(ChatPayload("text", c.input))])
    ensures c.input == "" || c.disabled ==> s == Reaction(c, [])
  {
    if c.input != "" && !c.disabled then Reaction(c.(input := ""), [EmitChat(ChatPayload("text", c.input))])
    else Reaction(c, [])
  }

  /** The nickname button: the trimmed entry, when non-empty, becomes the nickname and is sent as `join`. */
  function SubmitNickname(c: Client, entered: string): (s: Reaction)
    ensures Strings.Trim(entered) == [] ==> s == Reaction(c, [])
    ensures Strings.Trim(entered) != [] ==> s == Reaction(c.(nickname := Strings.Trim(entered)), [EmitJoin(Strings.Trim(entered))])
  {
    var n := Strings.Trim(entered);
    if n != [] then Reaction(c.(nickname := n), [EmitJoin(n)]) else Reaction(c, [])
  }

  /** Clicking a face in the emoji panel appends ` code ` to the input. */
  function InsertKaomoji(c: Client, k: nat): (c': Client)
    requires k < |Table|
    ensures c'.input == c.input + " " + Table[k].code + " "
    ensures c'.nickname == c.nickname && c'.disabled == c.disabled
  {
    c.(input := c.input + " " + Table[k].code + " ")
  }

  /** The socket's `disconnect`: input and send button are disabled. */
  function OnDisconnect(c: Client): (c': Client)
    ensures c'.disabled && c'.nickname == c.nickname && c'.input == c.input
  {
    c.(disabled := true)
  }

  /** The socket's `connect`: a page that has a nickname re-enables input and joins again under it. */
  function OnConnect(c: Client): (s: Reaction)
    ensures c.nickname != "" ==> s == Reaction(c.(disabled := false), [EmitJoin(c.nickname)])
    ensures c.nickname == "" ==> s == Reaction(c, [])
  {
    if c.nickname != "" then Reaction(c.(disabled := false), [EmitJoin(c.nickname)]) else Reaction(c, [])
  }

  // ---------------------------------------------------------------- with the server

  /** Every `join` the page emits carries a nickname the server accepts. */
  lemma EmittedJoinIsAccepted(c: Client, entered: string, h: Hub, id: ConnId)
    requires id in h.connections
    ensures var s := SubmitNickname(c, entered);
            forall e :: e in s.emits ==>
              (e.EmitJoin? && e.nickname != [] && Join(h, id, e.nickname).hub.connections[id] == Some(e.nickname))
    ensures var s := OnConnect(c);
            forall e :: e in s.emits ==>
              (e.EmitJoin? && e.nickname != [] && Join(h, id, e.nickname).hub.connections[id] == Some(e.nickname))
  {
    var n := Strings.Trim(entered);
    if n != [] {
      assert SubmitNickname(c, entered).emits == [EmitJoin(n)];
      assert Join(h, id, n).hub.connections == h.connections[id := Some(n)];
    } else {
      assert SubmitNickname(c, entered).emits == [];
    }
    if c.nickname != "" {
      assert OnConnect(c).emits == [EmitJoin(c.nickname)];
      assert Join(h, id, c.nickname).hub.connections == h.connections[id := Some(c.nickname)];
    } else {
      assert OnConnect(c).emits == [];
    }
  }

  /**
   * After the connection drops and comes back, the page joins again on its
   * new connection under the same nickname, and sending works again.
   */
  lemma ReconnectRejoins(c: Client, h: Hub)
    requires c.nickname != ""
    ensures var s := OnConnect(OnDisconnect(c));
            var hc := Connect(h, true).hub;
            && !s.client.disabled
            && s.emits == [EmitJoin(c.nickname)]
            && Join(hc, h.nextId, c.nickname).hub.connections[h.nextId] == Some(c.nickname)
  {
  }

  /**
   * A text message the page sends from a joined connection is stored under
   * that connection's nickname with type `text`, and every client shows it,
   * live and from history alike, as the typed text with kaomoji replaced.
   * This holds of the broadcast as written: a text message needs no
   * `message_type` to be shown as text.
   */
  lemma SentTextShownToAll(c: Client, h: Hub, id: ConnId, t: Timestamp)
    requires c.input != "" && !c.disabled
    requires id in h.connections && h.connections[id].Some?
    ensures var p := SendMessage(c).emits[0].payload;
            var r := Chat(h, id, p, Inserted(t));
            && r.hub.store == h.store + [Message(h.connections[id].value, JStr(c.input), JStr("text"), t)]
            && RenderContent(r.emits[0].payload.message) == Text(Substitute(c.input))
            && RenderStored(r.hub.store[|h.store|]) == Text(Substitute(c.input))
  {
    var p := ChatPayload("text", c.input);
    var nickname := h.connections[id].value;
    var m := StoredMessage(p, nickname, t);
    var r := Chat(h, id, p, Inserted(t));
    assert r.hub.store == h.store + [m];
    var b := r.emits[0].payload.message;
    assert Get(b, "message_type") == Get(p, "message_type") == JNull;
    assert Get(b, "msg") == JStr(c.input);
    NonImageShowsText(b, c.input);
    assert Get(WireMessage(m), "message_type") == JStr("text");
    assert Get(WireMessage(m), "msg") == JStr(c.input);
    NonImageShowsText(WireMessage(m), c.input);
  }
}

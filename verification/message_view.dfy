/**
 * How the client shows one chat message object, whether it arrives live as
 * `chat message` or as a row of `load history`: an image when its
 * `message_type` is `image`, otherwise its text with kaomoji codes replaced.
 */
module MessageView {
  import opened JsValues
  import opened MessageStore
  import opened Kaomoji
  import opened RealtimeHub

  /** `{ type, msg }`, the object the client emits as `chat message`. */
  function ChatPayload(kind: string, msg: string): (o: JsObject)
    ensures Get(o, "type") == JStr(kind) && Get(o, "msg") == JStr(msg)
    ensures "message_type" !in o && "nickname" !in o
  {
    map["type" := JStr(kind), "msg" := JStr(msg)]
  }

  datatype Content = Image(src: string) | Text(shown: string)

  /** `data.msg || ''`: a string message, or the empty string when there is none. */
  function MessageText(data: JsObject): (s: string)
    ensures Get(data, "msg") == JStr(s) || (s == [] && !Get(data, "msg").JStr?)
  {
    TextOr(Get(data, "msg"))
  }

  /** The content span of `createChatMessageElement`. */
  function RenderContent(data: JsObject): (c: Content)
    ensures c.Image? <==> Get(data, "message_type") == JStr("image")
    ensures c.Image? ==> c.src == MessageText(data)
    ensures c.Text? ==> c.shown == Substitute(MessageText(data))
  {
    if Get(data, "message_type") == JStr("image") then Image(MessageText(data))
    else Text(Substitute(MessageText(data)))
  }

  /** Only the `message_type` and `msg` fields decide what is shown. */
  lemma RenderReadsTwoFields(a: JsObject, b: JsObject)
    requires Get(a, "message_type") == Get(b, "message_type") && Get(a, "msg") == Get(b, "msg")
    ensures RenderContent(a) == RenderContent(b)
  {
    assert MessageText(a) == MessageText(b);
  }

  /** A message whose type is not `image` shows its text, kaomoji replaced. */
  lemma NonImageShowsText(data: JsObject, s: string)
    requires Get(data, "message_type") != JStr("image") && Get(data, "msg") == JStr(s)
    ensures RenderContent(data) == Text(Substitute(s))
  {
    assert MessageText(data) == s;
  }

  /** What a history row of a stored message shows. */
  function RenderStored(m: Message): Content {
    RenderContent(WireMessage(m))
  }

  /** A history row shows an image exactly when the stored type is `image`, with the stored content as its source. */
  lemma StoredImageShowsImage(m: Message)
    ensures RenderStored(m).Image? <==> m.messageType == JStr("image")
    ensures m.messageType == JStr("image") && m.content.JStr? ==> RenderStored(m) == Image(m.content.s)
  {
  }

  /**
   * As written, the live broadcast of an uploaded image carries `type` but no
   * `message_type`, so the other clients show the URL as text, while the same
   * message reloaded from history shows as an image.
   */
  lemma LiveImageShownAsText(url: string, nickname: string, t: Timestamp)
    ensures RenderContent(BroadcastAsWritten(ChatPayload("image", url), nickname, t)) == Text(Substitute(url))
    ensures RenderStored(StoredMessage(ChatPayload("image", url), nickname, t)) == Image(url)
  {
    var p := ChatPayload("image", url);
    var b := BroadcastAsWritten(p, nickname, t);
    assert Get(b, "message_type") == JNull;
    assert MessageText(b) == url;
    var w := WireMessage(StoredMessage(p, nickname, t));
    assert Get(w, "message_type") == JStr("image");
    assert MessageText(w) == url;
  }

  /**
   * With the stored type added as `message_type`, every live message shows
   * exactly as the history row it was stored as.
   */
  lemma LiveMatchesHistory(data: JsObject, nickname: string, t: Timestamp)
    ensures RenderContent(Broadcast(data, nickname, t)) == RenderStored(StoredMessage(data, nickname, t))
  {
    var b := Broadcast(data, nickname, t);
    var w := WireMessage(StoredMessage(data, nickname, t));
    assert Get(b, "msg") == Get(w, "msg");
    assert Get(b, "message_type") == Get(w, "message_type");
    RenderReadsTwoFields(b, w);
  }

  /**
   * The handler as written: an image sent from a joined connection is stored
   * as an image, but its live broadcast shows the URL as text.
   */
  lemma ChatImageShownAsText(h: Hub, id: ConnId, url: string, t: Timestamp)
    requires id in h.connections && h.connections[id].Some?
    ensures var r := Chat(h, id, ChatPayload("image", url), Inserted(t));
            && RenderContent(r.emits[0].payload.message) == Text(Substitute(url))
            && RenderStored(r.hub.store[|h.store|]) == Image(url)
  {
    var p := ChatPayload("image", url);
    var r := Chat(h, id, p, Inserted(t));
    var b := r.emits[0].payload.message;
    assert Get(b, "message_type") == Get(p, "message_type") == JNull;
    assert Get(b, "msg") == JStr(url);
    NonImageShowsText(b, url);
    var m := StoredMessage(p, h.connections[id].value, t);
    assert r.hub.store[|h.store|] == m;
    StoredImageShowsImage(m);
  }

  /**
   * The corrected handler: every client shows a live message exactly as the
   * history row it was stored as, whatever its type.
   */
  lemma CorrectedChatShowsAsStored(h: Hub, id: ConnId, data: JsObject, t: Timestamp)
    requires id in h.connections && h.connections[id].Some?
    ensures var r := ChatCorrected(h, id, data, Inserted(t));
            RenderContent(r.emits[0].payload.message) == RenderStored(r.hub.store[|h.store|])
  {
    var nickname := h.connections[id].value;
    var r := ChatCorrected(h, id, data, Inserted(t));
    assert r.emits[0].payload.message == Broadcast(data, nickname, t);
    assert r.hub.store[|h.store|] == StoredMessage(data, nickname, t);
    LiveMatchesHistory(data, nickname, t);
  }
}

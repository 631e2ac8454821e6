/**
 * The message list of the chat sidebar (`ChatList.tsx`): each message is
 * classed as a system notice, the current user's own message or someone
 * else's, keyed by its id or else its position, and an empty room shows a
 * placeholder instead. Scrolling is left out.
 */
module ChatList {
  /** A chat message as the room context stores it; an absent id is the empty string. */
  datatype ChatMessage = ChatMessage(id: string, username: string, message: string, timestamp: string)

  datatype MessageClass = SystemNotice | OwnMessage | OtherMessage

  /** The username the server uses for its notices. */
  const SystemName := "System"

  const EmptyPlaceholder := "No messages yet"

  /** The styling class of a message; the system check comes first. */
  function Classify(m: ChatMessage, currentUsername: string): (c: MessageClass)
    ensures c == SystemNotice <==> m.username == SystemName
    ensures c == OwnMessage <==> m.username != SystemName && m.username == currentUsername
    ensures c == OtherMessage <==> m.username != SystemName && m.username != currentUsername
  {
    if m.username == SystemName then SystemNotice
    else if m.username == currentUsername then OwnMessage
    else OtherMessage
  }

  /** A user who is called "System" sees their own messages styled as notices. */
  lemma SystemWinsOverSelf(m: ChatMessage)
    requires m.username == SystemName
    ensures Classify(m, SystemName) == SystemNotice
  {
  }

  /** The React key: the id when there is one, else the position. */
  datatype Key = IdKey(id: string) | IndexKey(index: nat)

  function KeyOf(m: ChatMessage, index: nat): (k: Key)
    ensures k.IdKey? <==> m.id != ""
    ensures k.IdKey? ==> k.id == m.id
    ensures k.IndexKey? ==> k.index == index
  {
    if m.id != "" then IdKey(m.id) else IndexKey(index)
  }

  datatype Bubble = Bubble(key: Key, cls: MessageClass, username: string, message: string, timestamp: string)

  datatype ListView = Placeholder(text: string) | Bubbles(bubbles: seq<Bubble>)

  /** The list: one bubble per message in order, or the placeholder when there are none. */
  function Render(messages: seq<ChatMessage>, currentUsername: string): (v: ListView)
    ensures v.Placeholder? <==> |messages| == 0
    ensures v.Placeholder? ==> v.text == EmptyPlaceholder
    ensures v.Bubbles? ==> |v.bubbles| == |messages|
    ensures v.Bubbles? ==> forall i :: 0 <= i < |messages| ==>
              && v.bubbles[i].key == KeyOf(messages[i], i)
              && v.bubbles[i].cls == Classify(messages[i], currentUsername)
              && v.bubbles[i].username == messages[i].username
              && v.bubbles[i].message == messages[i].message
              && v.bubbles[i].timestamp == messages[i].timestamp
  {
    if |messages| == 0 then Placeholder(EmptyPlaceholder)
    else Bubbles(seq(|messages|, i requires 0 <= i < |messages| =>
      var m := messages[i];
      Bubble(KeyOf(m, i), Classify(m, currentUsername), m.username, m.message, m.timestamp)))
  }

  /** Messages with distinct, present ids get distinct keys; so do messages without ids. */
  lemma KeysDistinct(messages: seq<ChatMessage>, currentUsername: string, i: nat, j: nat)
    requires i < j < |messages|
    requires messages[i].id != messages[j].id || messages[i].id == ""
    ensures Render(messages, currentUsername).bubbles[i].key != Render(messages, currentUsername).bubbles[j].key
  {
  }

  /** Changing who is logged in restyles messages but never reorders or drops them. */
  lemma RenderKeepsMessages(messages: seq<ChatMessage>, a: string, b: string, i: nat)
    requires i < |messages|
    ensures Render(messages, a).bubbles[i].message == Render(messages, b).bubbles[i].message
    ensures Render(messages, a).bubbles[i].key == Render(messages, b).bubbles[i].key
    ensures messages[i].username == SystemName
            ==> Render(messages, a).bubbles[i].cls == Render(messages, b).bubbles[i].cls
  {
  }
}

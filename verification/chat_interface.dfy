/**
 * The demo team chat (`chat-interface.tsx`): sending from the draft, the
 * Enter-key shortcut, and the simulated colleague who answers. Message ids,
 * the choice among the canned replies and all delays are inputs or events.
 */
module ChatInterface {
  import opened Text

  datatype Message = Message(id: string, sender: string, content: string, isUser: bool)

  datatype Chat = Chat(messages: seq<Message>, draft: string, isTyping: bool)

  /** The replies the simulated colleague picks from. */
  const Replies: seq<string> := [
    "I've made some updates based on your feedback. Can you check again?",
    "Thanks for the review! I'll fix those issues right away.",
    "What do you think about adding a rate limiting feature to the auth module?",
    "I'm also working on the user profile section. Should we integrate it with the auth module?"
  ]

  /** `handleSendMessage`: a draft with any non-space character is appended as-is and cleared. */
  function SendMessage(c: Chat, id: string): (r: Chat)
    ensures AllSpace(c.draft) ==> r == c
    ensures !AllSpace(c.draft) ==>
              && r.messages == c.messages + [Message(id, "You", c.draft, true)]
              && r.draft == "" && r.isTyping == c.isTyping
  {
    TrimEmptyIffAllSpace(c.draft);
    if Trim(c.draft) == "" then c
    else c.(messages := c.messages + [Message(id, "You", c.draft, true)], draft := "")
  }

  /** `handleKeyDown`: Enter without Shift sends; every other key leaves the chat alone. */
  function KeyDown(c: Chat, key: string, shift: bool, id: string): (r: Chat)
    ensures key == "Enter" && !shift ==> r == SendMessage(c, id)
    ensures key != "Enter" || shift ==> r == c
  {
    if key == "Enter" && !shift then SendMessage(c, id) else c
  }

  /** The reply simulation is scheduled only once the user has said something. */
  predicate ReplyScheduled(c: Chat) {
    exists i :: 0 <= i < |c.messages| && c.messages[i].isUser
  }

  /** `simulateTyping`: the colleague starts typing only if idle and the last word was the user's. */
  function StartTyping(c: Chat): (r: Chat)
    ensures r.messages == c.messages && r.draft == c.draft
    ensures r.isTyping <==> c.isTyping || (|c.messages| > 0 && c.messages[|c.messages| - 1].isUser)
  {
    if !c.isTyping && |c.messages| > 0 && c.messages[|c.messages| - 1].isUser then c.(isTyping := true) else c
  }

  /** The end of the typing delay: one reply from "Alice" is appended and typing stops. */
  function CompleteReply(c: Chat, id: string, choice: nat): (r: Chat)
    requires choice < |Replies|
    ensures r.messages == c.messages + [Message(id, "Alice", Replies[choice], false)]
    ensures !r.isTyping && r.draft == c.draft
  {
    c.(messages := c.messages + [Message(id, "Alice", Replies[choice], false)], isTyping := false)
  }

  /** Typing can start only while a reply is scheduled. */
  lemma TypingNeedsScheduledReply(c: Chat)
    requires !c.isTyping && StartTyping(c).isTyping
    ensures ReplyScheduled(c)
  {
    assert c.messages[|c.messages| - 1].isUser;
  }

  /** A sent message keeps every earlier message and schedules a reply. */
  lemma SendSchedulesReply(c: Chat, id: string)
    requires !AllSpace(c.draft)
    ensures SendMessage(c, id).messages[..|c.messages|] == c.messages
    ensures ReplyScheduled(SendMessage(c, id))
    ensures StartTyping(SendMessage(c, id)).isTyping
  {
    var r := SendMessage(c, id);
    assert r.messages[|c.messages|].isUser;
  }

  /** After a reply the last word is the colleague's, so no new typing starts until the user sends again. */
  lemma NoTypingAfterReply(c: Chat, id: string, choice: nat)
    requires choice < |Replies|
    ensures StartTyping(CompleteReply(c, id, choice)) == CompleteReply(c, id, choice)
  {
  }
}

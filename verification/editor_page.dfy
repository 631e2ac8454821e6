/**
 * The editor page's join effect (`EditorPage.tsx`): where the username
 * comes from — navigation state first, then the session's stored copy —
 * and whether the page joins the room or sends the visitor home.
 */
module EditorPage {
  import opened Wrappers
  import opened Effects

  /** The username the page would join with, if it finds one. */
  function ResolveUsername(stateUsername: Option<string>, stored: Option<string>): (r: Option<string>)
    ensures stateUsername.Some? ==> r == stateUsername
    ensures stateUsername.None? ==> (r.Some? <==> stored.Some? && stored.value != "")
    ensures stateUsername.None? && r.Some? ==> r == stored
  {
    if stateUsername.Some? then stateUsername
    else if stored.Some? && stored.value != "" then stored
    else None
  }

  /**
   * The join effect. `currentUsername` is the context user's name, the
   * options stand for `location.state?.username`, the session's
   * "editorUsername" entry and the route's room id.
   */
  function JoinEffect(currentUsername: string, stateUsername: Option<string>, stored: Option<string>,
                      roomId: Option<string>): (effects: seq<Effect>)
    ensures |currentUsername| > 0 ==> effects == []
    ensures |currentUsername| == 0 && ResolveUsername(stateUsername, stored).None? ==>
              effects == [Navigate("/", WithRoomId(roomId))]
  {
    if |currentUsername| > 0 then []
    else match ResolveUsername(stateUsername, stored)
      case None => [Navigate("/", WithRoomId(roomId))]
      case Some(username) =>
        var consumed := if stateUsername.None? then [StoreRemove(SessionStorage, "editorUsername")] else [];
        if roomId.Some? && roomId.value != "" then
          var user := User(username, roomId.value, None);
          consumed + [SetUser(user), Emit(JoinRequest, user)]
        else consumed
  }

  /**
   * With an empty context name, a found username and a room id, the page
   * sets the user {username, roomId, no socket id} and sends that same user
   * as the join request.
   */
  lemma JoinSendsResolvedUser(stateUsername: Option<string>, stored: Option<string>, roomId: Option<string>)
    requires ResolveUsername(stateUsername, stored).Some?
    requires roomId.Some? && roomId.value != ""
    ensures var user := User(ResolveUsername(stateUsername, stored).value, roomId.value, None);
            var effects := JoinEffect("", stateUsername, stored, roomId);
            && |effects| >= 2
            && effects[|effects| - 2] == SetUser(user)
            && effects[|effects| - 1] == Emit(JoinRequest, user)
  {
  }

  /** A username in navigation state wins — even an empty one — and leaves storage alone. */
  lemma StateUsernameWins(username: string, stored: Option<string>, roomId: Option<string>)
    requires roomId.Some? && roomId.value != ""
    ensures JoinEffect("", Some(username), stored, roomId)
            == [SetUser(User(username, roomId.value, None)), Emit(JoinRequest, User(username, roomId.value, None))]
    ensures !TouchesStorage(JoinEffect("", Some(username), stored, roomId))
  {
  }

  /** A stored username is removed from the session as soon as it is used. */
  lemma StoredUsernameConsumed(stored: string, roomId: Option<string>)
    requires stored != ""
    ensures var effects := JoinEffect("", None, Some(stored), roomId);
            |effects| > 0 && effects[0] == StoreRemove(SessionStorage, "editorUsername")
  {
  }

  /** The page joins exactly when the context name is empty, a username is found and the room id is non-empty. */
  lemma JoinsIff(currentUsername: string, stateUsername: Option<string>, stored: Option<string>, roomId: Option<string>)
    ensures Emits(JoinEffect(currentUsername, stateUsername, stored, roomId)) <==>
              && |currentUsername| == 0
              && ResolveUsername(stateUsername, stored).Some?
              && roomId.Some? && roomId.value != ""
    ensures Navigates(JoinEffect(currentUsername, stateUsername, stored, roomId)) <==>
              |currentUsername| == 0 && ResolveUsername(stateUsername, stored).None?
  {
    var effects := JoinEffect(currentUsername, stateUsername, stored, roomId);
    if |currentUsername| == 0 && ResolveUsername(stateUsername, stored).Some? && roomId.Some? && roomId.value != "" {
      assert effects[|effects| - 1].Emit?;
    }
    if |currentUsername| == 0 && ResolveUsername(stateUsername, stored).None? {
      assert effects[0].Navigate?;
    }
  }

  datatype Page = ConnectionStatusPage | Workspace

  /** A failed connection replaces the editor with the connection-status page. */
  function Render(status: Status): (p: Page)
    ensures p == ConnectionStatusPage <==> status == ConnectionFailed
  {
    if status == ConnectionFailed then ConnectionStatusPage else Workspace
  }
}

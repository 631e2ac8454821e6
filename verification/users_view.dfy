/**
 * The room panel of the editor sidebar (`UsersView.tsx`): copying or
 * sharing the room id taken from the last segment of the page path, and
 * leaving the room. Whether the clipboard write or the share sheet
 * succeeds, and whether the browser offers a share sheet at all, are inputs.
 */
module UsersView {
  import opened Text
  import opened Effects

  const NoIdMessage := "Unique ID not found in the URL"
  const CopiedMessage := "Unique ID copied to clipboard"
  const CopyFailedMessage := "Unable to copy Unique ID to clipboard"
  const ShareFailedMessage := "Unable to share Unique ID"
  const ShareTitle := "Join my CodeNest session"

  function ShareText(id: string): string {
    "Join my CodeNest session with ID: " + id
  }

  /** `parts[parts.length - 1]` of `pathname.split("/")`. */
  function UniqueId(pathname: string): (id: string)
    ensures !Contains(id, '/')
  {
    var parts := Split(pathname, '/');
    parts[|parts| - 1]
  }

  /** The id is the longest suffix of the path free of "/": all of it, or what follows the last "/". */
  lemma UniqueIdIsLastSegment(pathname: string)
    ensures var id := UniqueId(pathname);
            && |id| <= |pathname|
            && pathname[|pathname| - |id|..] == id
            && (Contains(pathname, '/') <==> |id| < |pathname|)
            && (|id| < |pathname| ==> pathname[|pathname| - |id| - 1] == '/')
  {
    var parts := Split(pathname, '/');
    var id := parts[|parts| - 1];
    JoinSplit(pathname, '/');
    if |parts| >= 2 {
      JoinLast(parts, '/');
      var front := Join(parts[..|parts| - 1], '/');
      assert pathname == front + ['/'] + id;
      assert pathname[|pathname| - |id| - 1] == '/';
      assert pathname[|pathname| - |id|..] == id;
    } else {
      assert pathname == id;
      assert pathname[|pathname| - |id|..] == id;
    }
  }

  /** There is no id exactly when the path is empty or ends with "/". */
  lemma MissingIdIffTrailingSlash(pathname: string)
    ensures UniqueId(pathname) == "" <==> (pathname == "" || pathname[|pathname| - 1] == '/')
  {
    UniqueIdIsLastSegment(pathname);
  }

  /** On the editor page of a room the id read back is the room id. */
  lemma EditorPathGivesRoomId(roomId: string)
    requires !Contains(roomId, '/')
    ensures UniqueId(EditorPath(roomId)) == roomId
  {
    var xs := ["", "editor", roomId];
    assert !Contains("editor", '/');
    assert Join(xs[2..], '/') == roomId;
    assert Join(xs[1..], '/') == "editor" + "/" + roomId;
    assert Join(xs, '/') == "" + "/" + ("editor" + "/" + roomId);
    assert Join(xs, '/') == EditorPath(roomId);
    SplitJoin(xs, '/');
  }

  /** `copyURL`: the id to the clipboard, then a toast saying how it went. */
  function CopyUrl(pathname: string, writeSucceeds: bool): (effects: seq<Effect>)
    ensures UniqueId(pathname) == "" ==> effects == [Toast(Error, NoIdMessage)]
    ensures UniqueId(pathname) != "" ==> |effects| == 2 && effects[0] == ClipboardWrite(UniqueId(pathname))
    ensures UniqueId(pathname) != "" ==> (effects[1] == Toast(Success, CopiedMessage) <==> writeSucceeds)
  {
    var id := UniqueId(pathname);
    if id == "" then [Toast(Error, NoIdMessage)]
    else [ClipboardWrite(id)] + (if writeSucceeds then [Toast(Success, CopiedMessage)] else [Toast(Error, CopyFailedMessage)])
  }

  /** `shareURL`: the share sheet when the browser has one, the clipboard otherwise. */
  function ShareUrl(pathname: string, canShare: bool, succeeds: bool): (effects: seq<Effect>)
    ensures |effects| >= 1
    ensures UniqueId(pathname) == "" ==> effects == [Toast(Error, NoIdMessage)]
    ensures UniqueId(pathname) != "" && canShare
            ==> effects[0] == ShareSheet(ShareTitle, ShareText(UniqueId(pathname)))
                && (succeeds <==> |effects| == 1)
    ensures UniqueId(pathname) != "" && !canShare
            ==> effects[0] == ClipboardWrite(UniqueId(pathname)) && |effects| == 2
    ensures !succeeds && UniqueId(pathname) != "" ==> effects[|effects| - 1] == Toast(Error, ShareFailedMessage)
  {
    var id := UniqueId(pathname);
    if id == "" then [Toast(Error, NoIdMessage)]
    else if canShare then
      [ShareSheet(ShareTitle, ShareText(id))] + (if succeeds then [] else [Toast(Error, ShareFailedMessage)])
    else
      [ClipboardWrite(id)] + (if succeeds then [Toast(Success, CopiedMessage)] else [Toast(Error, ShareFailedMessage)])
  }

  /** Whatever the path, only the id itself ever reaches the clipboard, and never an empty one. */
  lemma ClipboardGetsOnlyTheId(pathname: string, canShare: bool, succeeds: bool, i: nat)
    ensures i < |CopyUrl(pathname, succeeds)| && CopyUrl(pathname, succeeds)[i].ClipboardWrite?
            ==> CopyUrl(pathname, succeeds)[i].text == UniqueId(pathname) != ""
    ensures i < |ShareUrl(pathname, canShare, succeeds)| && ShareUrl(pathname, canShare, succeeds)[i].ClipboardWrite?
            ==> ShareUrl(pathname, canShare, succeeds)[i].text == UniqueId(pathname) != ""
  {
  }

  /** `leaveRoom`: toast, disconnect, go offline, back to the home page. */
  function LeaveRoom(): (effects: seq<Effect>)
    ensures Navigates(effects) && effects[|effects| - 1] == Navigate("/", NoState)
    ensures exists i :: 0 <= i < |effects| - 1 && effects[i] == SocketDisconnect
    ensures exists i :: 0 <= i < |effects| - 1 && effects[i] == SetStatus(Offline)
  {
    var effects := [Toast(Success, "Left the room"), SocketDisconnect, SetStatus(Offline), Navigate("/", NoState)];
    assert effects[1] == SocketDisconnect && effects[2] == SetStatus(Offline);
    assert effects[3].Navigate?;
    effects
  }

  /** Whether some effect disconnects the socket, changes the status or leaves the page. */
  predicate TouchesSession(effects: seq<Effect>) {
    exists i :: 0 <= i < |effects| && (effects[i].SocketDisconnect? || effects[i].SetStatus? || effects[i].Navigate?)
  }

  /** Of the panel's three actions only leaving ends the session; copying and sharing never do. */
  lemma OnlyLeaveEndsSession(pathname: string, canShare: bool, succeeds: bool)
    ensures !TouchesSession(CopyUrl(pathname, succeeds))
    ensures !TouchesSession(ShareUrl(pathname, canShare, succeeds))
    ensures TouchesSession(LeaveRoom())
  {
    assert LeaveRoom()[1].SocketDisconnect?;
  }
}

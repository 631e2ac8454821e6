/**
 * The outside world the components act on — router, socket, browser
 * storage, clipboard, toasts — described as values. A decision function
 * returns the effects it would perform, in order, instead of performing them.
 */
module Effects {
  import opened Wrappers

  /** The connection states of the current user that the client distinguishes. */
  datatype Status = Initial | Online | Offline | AttemptingJoin | Joined | Disconnected | ConnectionFailed

  /** The user record shared through the application context. */
  datatype User = User(username: string, roomId: string, socketId: Option<string>)

  datatype SocketEvent = JoinRequest

  datatype ToastKind = Success | Error | Loading

  datatype StorageArea = SessionStorage | LocalStorage

  /** The `state` object passed along with a navigation. */
  datatype NavState = NoState | WithUsername(username: string) | WithRoomId(roomId: Option<string>)

  datatype Effect =
    | Toast(kind: ToastKind, text: string)
    | Alert(text: string)
    | Confirm(text: string)
    | Navigate(path: string, state: NavState)
    | StoreSet(area: StorageArea, key: string, value: string)
    | StoreRemove(area: StorageArea, key: string)
    | SetUser(user: User)
    | SetStatus(status: Status)
    | Emit(event: SocketEvent, user: User)
    | SocketConnect
    | SocketDisconnect
    | ClipboardWrite(text: string)
    | ShareSheet(title: string, text: string)
    | Post(endpoint: string, email: string)

  /** True when some effect of the list is a navigation. */
  predicate Navigates(effects: seq<Effect>) {
    exists i :: 0 <= i < |effects| && effects[i].Navigate?
  }

  /** True when some effect of the list writes or removes browser storage. */
  predicate TouchesStorage(effects: seq<Effect>) {
    exists i :: 0 <= i < |effects| && (effects[i].StoreSet? || effects[i].StoreRemove?)
  }

  /** True when some effect of the list emits on the socket. */
  predicate Emits(effects: seq<Effect>) {
    exists i :: 0 <= i < |effects| && effects[i].Emit?
  }

  /** The path of the editor page for a room. */
  function EditorPath(roomId: string): string {
    "/editor/" + roomId
  }
}

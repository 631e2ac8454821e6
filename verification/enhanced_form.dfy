/**
 * The room join form (`EnhancedFormComponent`): field edits, validation,
 * the guarded join request, the room-id prefill from navigation state and
 * the redirect handling once the server reports the user joined.
 */
module EnhancedForm {
  import opened Wrappers
  import opened Effects
  import opened Validation

  /** The form's view of the shared user and status, plus its own submitted flag. */
  datatype Form = Form(user: User, status: Status, formSubmitted: bool)

  datatype Reaction = Reaction(form: Form, effects: seq<Effect>)

  /** The input fields, by their `name` attribute. */
  datatype Field = UsernameField | RoomIdField

  /** The toast text this form shows for each failed check. */
  function Message(e: FormError): string {
    match e
    case EmptyUsername => "Enter your username"
    case EmptyRoomId => "Enter a room id"
    case RoomIdTooShort => "Room ID must be at least 5 characters"
    case UsernameTooShort => "Username must be at least 3 characters"
  }

  /** `handleInputChanges`: the named field takes the new value; every other field is kept. */
  function HandleInputChange(user: User, field: Field, value: string): (r: User)
    ensures field == UsernameField ==> r.username == value && r.roomId == user.roomId
    ensures field == RoomIdField ==> r.roomId == value && r.username == user.username
    ensures r.socketId == user.socketId
  {
    match field
    case UsernameField => user.(username := value)
    case RoomIdField => user.(roomId := value)
  }

  /**
   * `joinRoom`: ignored while a join is in flight; an invalid form shows its
   * error and changes nothing; a valid one marks the form submitted, moves to
   * ATTEMPTING_JOIN and sends the current user as a join request.
   */
  function JoinRoom(f: Form): (r: Reaction)
    ensures f.status == AttemptingJoin ==> r == Reaction(f, [])
    ensures f.status != AttemptingJoin && Validate(f.user.username, f.user.roomId).Some? ==>
              && r.form == f
              && r.effects == [Toast(Error, Message(Validate(f.user.username, f.user.roomId).value))]
    ensures f.status != AttemptingJoin && Validate(f.user.username, f.user.roomId).None? ==>
              && r.form == Form(f.user, AttemptingJoin, true)
              && r.effects == [Toast(Loading, "Joining room..."), Emit(JoinRequest, f.user)]
  {
    if f.status == AttemptingJoin then Reaction(f, [])
    else match Validate(f.user.username, f.user.roomId)
      case Some(e) => Reaction(f, [Toast(Error, Message(e))])
      case None => Reaction(f.(formSubmitted := true, status := AttemptingJoin),
                            [Toast(Loading, "Joining room..."), Emit(JoinRequest, f.user)])
  }

  /** The submit button's `disabled` flag. */
  predicate SubmitDisabled(f: Form) {
    f.formSubmitted || f.status == AttemptingJoin
  }

  /** Edits to different fields commute, and of two edits to one field the later wins. */
  lemma EditsCommute(user: User, a: Field, x: string, b: Field, y: string)
    ensures a != b ==>
              HandleInputChange(HandleInputChange(user, a, x), b, y) == HandleInputChange(HandleInputChange(user, b, y), a, x)
    ensures a == b ==> HandleInputChange(HandleInputChange(user, a, x), b, y) == HandleInputChange(user, b, y)
  {
  }

  /** A join right after an edit validates the edited value together with the other field as it was. */
  lemma JoinSeesEdit(f: Form, field: Field, value: string)
    requires f.status != AttemptingJoin
    ensures var edited := f.(user := HandleInputChange(f.user, field, value));
            Emits(JoinRoom(edited).effects) <==>
              if field == UsernameField then Validate(value, f.user.roomId).None?
              else Validate(f.user.username, value).None?
  {
    JoinEmitsIffValid(f.(user := HandleInputChange(f.user, field, value)));
  }

  /** Once the submit button is disabled, neither edits nor further submits enable it again. */
  lemma SubmitStaysDisabled(f: Form, field: Field, value: string)
    requires SubmitDisabled(f)
    ensures SubmitDisabled(f.(user := HandleInputChange(f.user, field, value)))
    ensures SubmitDisabled(JoinRoom(f).form)
  {
  }

  /** A join request is emitted exactly when no join is in flight and the form is valid. */
  lemma JoinEmitsIffValid(f: Form)
    ensures Emits(JoinRoom(f).effects) <==>
              f.status != AttemptingJoin && Validate(f.user.username, f.user.roomId).None?
  {
    if f.status != AttemptingJoin && Validate(f.user.username, f.user.roomId).None? {
      assert JoinRoom(f).effects[1].Emit?;
    }
  }

  /** After an accepted join the button is disabled and a second submit does nothing. */
  lemma JoinOnce(f: Form)
    requires Emits(JoinRoom(f).effects)
    ensures SubmitDisabled(JoinRoom(f).form)
    ensures JoinRoom(JoinRoom(f).form) == Reaction(JoinRoom(f).form, [])
  {
    JoinEmitsIffValid(f);
  }

  /**
   * The prefill effect: a room id passed in navigation state is copied in
   * only while the form's room id is empty, with a prompt for the username
   * when that is empty too.
   */
  function PrefillRoomId(user: User, stateRoomId: Option<string>): (r: (User, seq<Effect>))
    ensures r.0.username == user.username && r.0.socketId == user.socketId
    ensures |user.roomId| > 0 ==> r == (user, [])
    ensures r.0 != user ==> user.roomId == "" && stateRoomId == Some(r.0.roomId) && r.0.roomId != ""
    ensures user.roomId == "" && stateRoomId.Some? && stateRoomId.value != "" ==>
              && r.0.roomId == stateRoomId.value
              && (r.1 == [Toast(Success, "Enter your username")] <==> user.username == "")
    ensures r.1 == (if user.roomId == "" && stateRoomId.Some? && stateRoomId.value != "" && user.username == ""
                    then [Toast(Success, "Enter your username")] else [])
  {
    if |user.roomId| > 0 then (user, [])
    else match stateRoomId
      case Some(id) =>
        if id == "" then (user, [])
        else (user.(roomId := id), if |user.username| == 0 then [Toast(Success, "Enter your username")] else [])
      case None => (user, [])
  }

  /** The effect re-runs when the user changes; the second run changes nothing. */
  lemma PrefillSettles(user: User, stateRoomId: Option<string>)
    ensures PrefillRoomId(PrefillRoomId(user, stateRoomId).0, stateRoomId).0 == PrefillRoomId(user, stateRoomId).0
  {
  }

  /** The status and the session's "redirect" flag, which the redirect effect reads and writes. */
  datatype Session = Session(status: Status, redirect: bool)

  /**
   * The status effect: a disconnected socket reconnects; on JOINED the
   * first run sets the redirect flag and opens the editor, and a run that
   * finds the flag set clears it, drops back to DISCONNECTED and reconnects.
   */
  function StatusEffect(s: Session, socketConnected: bool, user: User): (r: (Session, seq<Effect>))
    ensures s.status == Disconnected && !socketConnected ==> r == (s, [SocketConnect])
    ensures s.status == Joined && !s.redirect ==>
              r == (Session(Joined, true),
                    [StoreSet(SessionStorage, "redirect", "true"),
                     Navigate(EditorPath(user.roomId), WithUsername(user.username))])
    ensures s.status == Joined && s.redirect ==>
              r == (Session(Disconnected, false),
                    [StoreRemove(SessionStorage, "redirect"), SetStatus(Disconnected), SocketDisconnect, SocketConnect])
    ensures s.status != Joined && !(s.status == Disconnected && !socketConnected) ==> r == (s, [])
  {
    if s.status == Disconnected && !socketConnected then (s, [SocketConnect])
    else if s.status == Joined && !s.redirect then
      (s.(redirect := true),
       [StoreSet(SessionStorage, "redirect", "true"), Navigate(EditorPath(user.roomId), WithUsername(user.username))])
    else if s.status == Joined && s.redirect then
      (Session(Disconnected, false),
       [StoreRemove(SessionStorage, "redirect"), SetStatus(Disconnected), SocketDisconnect, SocketConnect])
    else (s, [])
  }

  /** Only JOINED navigates, and only when the flag is clear. */
  lemma NavigatesOnlyOnFirstJoin(s: Session, socketConnected: bool, user: User)
    ensures Navigates(StatusEffect(s, socketConnected, user).1) <==> s.status == Joined && !s.redirect
  {
    if s.status == Joined && !s.redirect {
      assert StatusEffect(s, socketConnected, user).1[1].Navigate?;
    }
  }

  /** Were the effect to run again before the page changes, the second JOINED run would disconnect. */
  lemma JoinedTwiceDisconnects(socketConnected: bool, user: User)
    ensures var first := StatusEffect(Session(Joined, false), socketConnected, user);
            StatusEffect(first.0, socketConnected, user).0 == Session(Disconnected, false)
  {
  }
}

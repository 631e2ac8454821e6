/**
 * The home page's join form (`homepage.tsx`): validation with toast
 * messages, the join decision, and the generated room id.
 */
module HomePage {
  import opened Wrappers
  import opened Effects
  import opened Validation

  /** The toast text the home page shows for each failed check. */
  function Message(e: FormError): string {
    match e
    case EmptyUsername => "Enter your username"
    case EmptyRoomId => "Enter a room ID"
    case RoomIdTooShort => "Room ID must be at least 5 characters long"
    case UsernameTooShort => "Username must be at least 3 characters long"
  }

  /**
   * `handleJoinRoom`: an invalid form only shows the first error; a valid one
   * stores the username for the session and opens the room's editor. Both
   * use the values as typed, untrimmed.
   */
  function HandleJoinRoom(username: string, roomId: string): (effects: seq<Effect>)
    ensures Validate(username, roomId).Some? ==>
              && effects == [Toast(Error, Message(Validate(username, roomId).value))]
              && !Navigates(effects) && !TouchesStorage(effects)
    ensures Validate(username, roomId).None? ==>
              effects == [StoreSet(SessionStorage, "editorUsername", username),
                          Navigate(EditorPath(roomId), WithUsername(username))]
  {
    var verdict := Validate(username, roomId);
    if verdict.Some? then [Toast(Error, Message(verdict.value))]
    else [StoreSet(SessionStorage, "editorUsername", username), Navigate(EditorPath(roomId), WithUsername(username))]
  }

  /** A join navigates exactly when the trimmed username is 3 code units long and the trimmed room id 5. */
  lemma JoinNavigatesIffValid(username: string, roomId: string)
    ensures Navigates(HandleJoinRoom(username, roomId)) <==>
              TrimmedLength(username) >= MinUsernameLength && TrimmedLength(roomId) >= MinRoomIdLength
  {
    if Validate(username, roomId).None? {
      assert HandleJoinRoom(username, roomId)[1].Navigate?;
    }
  }

  // ---------------------------------------------------------------- generated room ids

  const RoomIdAlphabet: string := "abcdefghijklmnopqrstuvwxyz0123456789"
  const RoomIdLength: nat := 6

  predicate IsRoomIdChar(c: char) {
    'a' <= c <= 'z' || '0' <= c <= '9'
  }

  /** Whether `draws` are possible values of `Math.floor(Math.random() * 36)` for each position. */
  predicate ValidDraws(draws: seq<nat>) {
    |draws| == RoomIdLength && forall i :: 0 <= i < |draws| ==> draws[i] < |RoomIdAlphabet|
  }

  lemma AlphabetChars(k: nat)
    requires k < |RoomIdAlphabet|
    ensures IsRoomIdChar(RoomIdAlphabet[k])
  {
  }

  /**
   * `createNewRoomId`: six characters picked from the alphabet by the given
   * draws (the random choices are inputs).
   */
  method CreateNewRoomId(draws: seq<nat>) returns (id: string)
    requires ValidDraws(draws)
    ensures |id| == RoomIdLength
    ensures forall i :: 0 <= i < |id| ==> IsRoomIdChar(id[i])
    ensures forall i :: 0 <= i < |id| ==> id[i] == RoomIdAlphabet[draws[i]]
  {
    id := "";
    var i := 0;
    while i < RoomIdLength
      invariant 0 <= i <= RoomIdLength
      invariant |id| == i
      invariant forall j :: 0 <= j < i ==> id[j] == RoomIdAlphabet[draws[j]] && IsRoomIdChar(id[j])
    {
      AlphabetChars(draws[i]);
      id := id + [RoomIdAlphabet[draws[i]]];
      i := i + 1;
    }
  }

  /** The draw that picks character `c`. */
  function DrawOf(c: char): (k: nat)
    requires IsRoomIdChar(c)
    ensures k < |RoomIdAlphabet| && RoomIdAlphabet[k] == c
  {
    if 'a' <= c <= 'z' then (c as int - 'a' as int) else (c as int - '0' as int) + 26
  }

  /** Every six-character id over a–z and 0–9 is produced by some draws. */
  method DrawsFor(id: string) returns (draws: seq<nat>)
    requires |id| == RoomIdLength && forall i :: 0 <= i < |id| ==> IsRoomIdChar(id[i])
    ensures ValidDraws(draws)
    ensures forall i :: 0 <= i < |id| ==> RoomIdAlphabet[draws[i]] == id[i]
  {
    draws := [];
    var i := 0;
    while i < |id|
      invariant 0 <= i <= |id|
      invariant |draws| == i
      invariant forall j :: 0 <= j < i ==> draws[j] < |RoomIdAlphabet| && RoomIdAlphabet[draws[j]] == id[j]
    {
      draws := draws + [DrawOf(id[i])];
      i := i + 1;
    }
  }
}

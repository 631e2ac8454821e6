/**
 * The join-form validation shared by the home page and the join form:
 * four checks on trimmed lengths, run in a fixed order, the first failure
 * being the one reported. A length is JavaScript's `length`: UTF-16 code
 * units, so a character outside the Basic Multilingual Plane counts twice.
 */
module Validation {
  import opened Wrappers
  import opened Text

  const MinUsernameLength: nat := 3
  const MinRoomIdLength: nat := 5

  datatype FormError = EmptyUsername | EmptyRoomId | RoomIdTooShort | UsernameTooShort

  /** `value.trim().length`. */
  function TrimmedLength(s: string): nat {
    Utf16Length(Trim(s))
  }

  /** `validateForm`: `None` when the form may be submitted, else the first failed check. */
  function Validate(username: string, roomId: string): (r: Option<FormError>)
    ensures r == Some(EmptyUsername) <==> TrimmedLength(username) == 0
    ensures r == Some(EmptyRoomId) <==> TrimmedLength(username) > 0 && TrimmedLength(roomId) == 0
    ensures r == Some(RoomIdTooShort) <==>
              TrimmedLength(username) > 0 && 0 < TrimmedLength(roomId) < MinRoomIdLength
    ensures r == Some(UsernameTooShort) <==>
              0 < TrimmedLength(username) < MinUsernameLength && TrimmedLength(roomId) >= MinRoomIdLength
    ensures r.None? <==> TrimmedLength(username) >= MinUsernameLength && TrimmedLength(roomId) >= MinRoomIdLength
  {
    var u := TrimmedLength(username);
    var id := TrimmedLength(roomId);
    if u == 0 then Some(EmptyUsername)
    else if id == 0 then Some(EmptyRoomId)
    else if id < MinRoomIdLength then Some(RoomIdTooShort)
    else if u < MinUsernameLength then Some(UsernameTooShort)
    else None
  }

  /** A blank username is reported first, whatever the room id. */
  lemma BlankUsernameReportedFirst(username: string, roomId: string)
    requires AllSpace(username)
    ensures Validate(username, roomId) == Some(EmptyUsername)
  {
    TrimEmptyIffAllSpace(username);
  }

  /** A short room id is reported before a short username. */
  lemma RoomIdCheckedBeforeUsernameLength(username: string, roomId: string)
    requires 0 < TrimmedLength(username) < MinUsernameLength
    requires 0 < TrimmedLength(roomId) < MinRoomIdLength
    ensures Validate(username, roomId) == Some(RoomIdTooShort)
  {
  }

  /** The verdict depends on the trimmed lengths alone. */
  lemma ValidateByLengths(u1: string, r1: string, u2: string, r2: string)
    requires TrimmedLength(u1) == TrimmedLength(u2) && TrimmedLength(r1) == TrimmedLength(r2)
    ensures Validate(u1, r1) == Validate(u2, r2)
  {
  }

  /** A trimmed value measures what the value measures. */
  lemma TrimmedLengthOfTrim(s: string)
    ensures TrimmedLength(Trim(s)) == TrimmedLength(s)
  {
    TrimIdempotent(s);
  }

  /** Trimming the inputs first never changes the verdict: only the trimmed values are measured. */
  lemma ValidateIgnoresPadding(username: string, roomId: string)
    ensures Validate(Trim(username), Trim(roomId)) == Validate(username, roomId)
  {
    TrimmedLengthOfTrim(username);
    TrimmedLengthOfTrim(roomId);
    ValidateByLengths(Trim(username), Trim(roomId), username, roomId);
  }

  /** `length` counts a character outside the Basic Multilingual Plane twice. */
  lemma AstralCharCountsTwice()
    ensures |"a\U{1F600}"| == 2 && TrimmedLength("a\U{1F600}") == 3
  {
    var s := "a\U{1F600}";
    assert Trim(s) == s by {
      assert !IsSpace(s[0]) && !IsSpace(s[1]);
      TrimOfTrimmed(s);
    }
    assert s[1..] == ['\U{1F600}'];
    assert Utf16Length(['\U{1F600}']) == 2;
  }

  /**
   * Lengths count UTF-16 code units: a two-character username passes the
   * three-character minimum when its second character lies outside the
   * Basic Multilingual Plane, and fails it when both are plain characters.
   */
  lemma LengthCountsCodeUnits(a: char, b: char, roomId: string)
    requires !IsSpace(a) && a as int < 0x1_0000
    requires TrimmedLength(roomId) >= MinRoomIdLength
    ensures b as int >= 0x1_0000 ==> Validate([a, b], roomId).None?
    ensures !IsSpace(b) && b as int < 0x1_0000 ==> Validate([a, b], roomId) == Some(UsernameTooShort)
  {
    var u := [a, b];
    if b as int >= 0x1_0000 || !IsSpace(b) {
      assert !IsSpace(u[0]) && !IsSpace(u[1]);
      TrimOfTrimmed(u);
      assert u[1..][1..] == [];
      assert Utf16Length(u) == Utf16Units(a) + Utf16Units(b);
    }
  }
}

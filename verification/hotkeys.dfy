/**
 * The keyboard-shortcut matcher of `useHotkeys`.
 *
 * The hook keeps the set of held keys (a JavaScript `Set`, so each name at
 * most once, in insertion order) and after every handled key event compares
 * the held keys against each registered hotkey. Both sides are compared in
 * a canonical form — the key names sorted and joined with "+" — and the
 * first hotkey in registration order whose canonical form equals that of a
 * non-empty held set fires. Its canonical form becomes the active hotkey,
 * which a timer later clears.
 *
 * Callbacks are identified by the index of their hotkey: a step reports
 * which index fired, if any.
 */
module Hotkeys {
  import opened Wrappers
  import opened Text
  import opened Sorting

  /** The element a keyboard event was aimed at. */
  datatype Target = InputElement | TextAreaElement | SelectElement | OtherElement

  datatype KeyEvent = KeyEvent(key: string, target: Target)

  /** A registered shortcut; the callback is represented by the hotkey's position. */
  datatype Hotkey = Hotkey(keys: seq<string>, description: string)

  /** The hook's state: the held keys in insertion order and the active hotkey's canonical form. */
  datatype Tracker = Tracker(pressed: seq<string>, active: Option<string>)

  /** The state after an event and the index of the hotkey whose callback fired, if one did. */
  datatype Step = Step(tracker: Tracker, fired: Option<nat>)

  const Separator: char := '+'

  const Initial: Tracker := Tracker([], None)

  /** Key-down events aimed at these elements are typing, not shortcuts. */
  predicate IsTextEntry(t: Target) {
    t == InputElement || t == TextAreaElement || t == SelectElement
  }

  predicate Distinct(s: seq<string>) {
    forall i, j :: 0 <= i < j < |s| ==> s[i] != s[j]
  }

  /** What every held-key list the hook can reach satisfies. */
  predicate Valid(t: Tracker) {
    Distinct(t.pressed) && forall i :: 0 <= i < |t.pressed| ==> !HasUpper(t.pressed[i])
  }

  // ---------------------------------------------------------------- the held-key set

  /** `Set.add`: a held key stays where it is; a new one goes last. */
  function AddKey(pressed: seq<string>, k: string): (r: seq<string>)
    ensures forall x :: x in r <==> x in pressed || x == k
    ensures k in pressed ==> r == pressed
    ensures Distinct(pressed) ==> Distinct(r)
  {
    if k in pressed then pressed else pressed + [k]
  }

  /** `Set.delete`: every other key stays, in order. */
  function RemoveKey(pressed: seq<string>, k: string): (r: seq<string>)
    ensures forall x :: x in r <==> x in pressed && x != k
    ensures k !in pressed ==> r == pressed
    ensures Distinct(pressed) ==> Distinct(r)
    ensures |r| <= |pressed|
    decreases |pressed|
  {
    if |pressed| == 0 then []
    else
      var rest := RemoveKey(pressed[1..], k);
      assert pressed == [pressed[0]] + pressed[1..];
      if pressed[0] == k then rest
      else
        assert Distinct(pressed) ==> pressed[0] !in pressed[1..];
        [pressed[0]] + rest
  }

  // ---------------------------------------------------------------- matching

  /** The order-independent form both sides are compared in. */
  function Canonical(keys: seq<string>): string {
    Join(Sort(keys), Separator)
  }

  /** The hook's match condition for one hotkey against the held keys. */
  predicate Matches(keys: seq<string>, pressed: seq<string>) {
    |pressed| > 0 && Canonical(keys) == Canonical(pressed)
  }

  /** The first position at or after `from` holding `true`. */
  function FirstTrueFrom(bs: seq<bool>, from: nat): (r: Option<nat>)
    requires from <= |bs|
    ensures r.Some? ==> from <= r.value < |bs| && bs[r.value]
    ensures r.Some? ==> forall j :: from <= j < r.value ==> !bs[j]
    ensures r.None? <==> forall j :: from <= j < |bs| ==> !bs[j]
    decreases |bs| - from
  {
    if from == |bs| then None
    else if bs[from] then Some(from)
    else FirstTrueFrom(bs, from + 1)
  }

  /** The first hotkey, in registration order, that matches the held keys. */
  function FirstMatch(hotkeys: seq<Hotkey>, pressed: seq<string>): (r: Option<nat>)
    ensures r.Some? ==> r.value < |hotkeys| && Matches(hotkeys[r.value].keys, pressed)
    ensures r.Some? ==> forall j :: 0 <= j < r.value ==> !Matches(hotkeys[j].keys, pressed)
    ensures r.None? <==> forall j :: 0 <= j < |hotkeys| ==> !Matches(hotkeys[j].keys, pressed)
  {
    var bs := seq(|hotkeys|, j requires 0 <= j < |hotkeys| => Matches(hotkeys[j].keys, pressed));
    assert forall j :: 0 <= j < |hotkeys| ==> bs[j] == Matches(hotkeys[j].keys, pressed);
    FirstTrueFrom(bs, 0)
  }

  /**
   * The matching pass run after every change of the held keys: at most
   * one callback fires and the active hotkey becomes its canonical form.
   */
  function Evaluate(t: Tracker, hotkeys: seq<Hotkey>): (r: Step)
    ensures r.tracker.pressed == t.pressed
    ensures r.fired.Some? ==>
              && r.fired.value < |hotkeys|
              && Matches(hotkeys[r.fired.value].keys, t.pressed)
              && (forall j :: 0 <= j < r.fired.value ==> !Matches(hotkeys[j].keys, t.pressed))
              && r.tracker.active == Some(Canonical(hotkeys[r.fired.value].keys))
              && r.tracker.active == Some(Canonical(t.pressed))
    ensures r.fired.None? ==>
              && (forall j :: 0 <= j < |hotkeys| ==> !Matches(hotkeys[j].keys, t.pressed))
              && r.tracker.active == t.active
  {
    match FirstMatch(hotkeys, t.pressed)
    case None => Step(t, None)
    case Some(i) => Step(t.(active := Some(Canonical(hotkeys[i].keys))), Some(i))
  }

  /** `handleKeyDown` followed by the matching pass it triggers. */
  function KeyDown(t: Tracker, hotkeys: seq<Hotkey>, e: KeyEvent): (r: Step)
    ensures IsTextEntry(e.target) ==> r == Step(t, None)
    ensures !IsTextEntry(e.target) ==>
              (forall x :: x in r.tracker.pressed <==> x in t.pressed || x == Lower(e.key))
              && r == Evaluate(t.(pressed := r.tracker.pressed), hotkeys)
  {
    if IsTextEntry(e.target) then Step(t, None)
    else Evaluate(t.(pressed := AddKey(t.pressed, Lower(e.key))), hotkeys)
  }

  /** `handleKeyUp` followed by the matching pass it triggers; the target is never consulted. */
  function KeyUp(t: Tracker, hotkeys: seq<Hotkey>, e: KeyEvent): (r: Step)
    ensures forall x :: x in r.tracker.pressed <==> x in t.pressed && x != Lower(e.key)
    ensures r == Evaluate(t.(pressed := r.tracker.pressed), hotkeys)
  {
    Evaluate(t.(pressed := RemoveKey(t.pressed, Lower(e.key))), hotkeys)
  }

  /** The 500 ms timer started by a match: it clears the active hotkey. */
  function ClearActive(t: Tracker): (r: Tracker)
    ensures r.active.None? && r.pressed == t.pressed
  {
    t.(active := None)
  }

  // ---------------------------------------------------------------- properties of the held-key set

  /** Both handlers keep every key name at most once and all of them lower-case. */
  lemma EventsKeepValid(t: Tracker, hotkeys: seq<Hotkey>, e: KeyEvent)
    requires Valid(t)
    ensures Valid(KeyDown(t, hotkeys, e).tracker)
    ensures Valid(KeyUp(t, hotkeys, e).tracker)
  {
    LowerSpec(e.key);
    var down := KeyDown(t, hotkeys, e).tracker.pressed;
    forall i | 0 <= i < |down| ensures !HasUpper(down[i]) {
      assert down[i] in down;
      if down[i] != Lower(e.key) {
        var j :| 0 <= j < |t.pressed| && t.pressed[j] == down[i];
      }
    }
    var up := KeyUp(t, hotkeys, e).tracker.pressed;
    forall i | 0 <= i < |up| ensures !HasUpper(up[i]) {
      assert up[i] in up;
      var j :| 0 <= j < |t.pressed| && t.pressed[j] == up[i];
    }
  }

  /** Re-pressing a held key (keyboard auto-repeat) leaves the held keys as they were. */
  lemma RepressKeepsPressed(t: Tracker, hotkeys: seq<Hotkey>, e: KeyEvent)
    requires Lower(e.key) in t.pressed
    ensures KeyDown(t, hotkeys, e).tracker.pressed == t.pressed
  {
  }

  /** Releasing a key that is not held leaves the held keys as they were. */
  lemma ReleaseUnheldKeepsPressed(t: Tracker, hotkeys: seq<Hotkey>, e: KeyEvent)
    requires Lower(e.key) !in t.pressed
    ensures KeyUp(t, hotkeys, e).tracker.pressed == t.pressed
  {
  }

  /**
   * The matcher is level-triggered and runs after every handled event, even
   * one that leaves the held keys unchanged: an auto-repeated key-down of a
   * matching chord fires the same callback again.
   */
  lemma AutoRepeatRefires(t: Tracker, hotkeys: seq<Hotkey>, e: KeyEvent)
    requires KeyDown(t, hotkeys, e).fired.Some?
    ensures KeyDown(KeyDown(t, hotkeys, e).tracker, hotkeys, e).fired == KeyDown(t, hotkeys, e).fired
  {
    var t1 := KeyDown(t, hotkeys, e).tracker;
    assert Lower(e.key) in t1.pressed;
  }

  // ---------------------------------------------------------------- properties of matching

  /** The canonical form does not depend on the order of the keys. */
  lemma CanonicalPermutationInvariant(a: seq<string>, b: seq<string>)
    requires multiset(a) == multiset(b)
    ensures Canonical(a) == Canonical(b)
  {
    SortPermutationInvariant(a, b);
  }

  /** With no key held nothing matches, not even a hotkey with no keys. */
  lemma EmptyNeverMatches(hotkeys: seq<Hotkey>, active: Option<string>)
    ensures Evaluate(Tracker([], active), hotkeys) == Step(Tracker([], active), None)
  {
  }

  /**
   * The canonical form is a joined string, so it does not determine the
   * keys: the single key "a+b" and the chord "a", "b" look the same.
   */
  lemma CanonicalNotInjective()
    ensures Canonical(["a+b"]) == Canonical(["a", "b"])
    ensures multiset(["a+b"]) != multiset(["a", "b"])
  {
    assert LexLe("a", "b");
    assert Sort(["b"]) == ["b"];
    assert Sort(["a", "b"]) == ["a", "b"];
    assert Sort(["a+b"]) == ["a+b"];
    assert "a+b" in multiset(["a+b"]);
  }

  /** No character of a join of lower-case-only strings is upper case. */
  lemma JoinNoUpper(xs: seq<string>)
    requires forall k :: 0 <= k < |xs| ==> !HasUpper(xs[k])
    ensures !HasUpper(Join(xs, Separator))
  {
    var J := Join(xs, Separator);
    forall i | 0 <= i < |J| ensures !IsUpper(J[i]) {
      JoinChars(xs, Separator, i);
      if J[i] != Separator {
        var k, j :| 0 <= k < |xs| && 0 <= j < |xs[k]| && xs[k][j] == J[i];
      }
    }
  }

  /** Held keys are lower-cased, so a hotkey naming an upper-case letter can never fire. */
  lemma UpperCaseKeyNeverMatches(t: Tracker, keys: seq<string>, k: nat)
    requires Valid(t)
    requires k < |keys| && HasUpper(keys[k])
    ensures !Matches(keys, t.pressed)
  {
    var sp := Sort(t.pressed);
    forall m | 0 <= m < |sp| ensures !HasUpper(sp[m]) {
      assert sp[m] in multiset(t.pressed);
    }
    JoinNoUpper(sp);
    var sk := Sort(keys);
    assert keys[k] in multiset(sk);
    var m :| 0 <= m < |sk| && sk[m] == keys[k];
    var j :| 0 <= j < |keys[k]| && IsUpper(keys[k][j]);
    JoinKeepsChars(sk, Separator, m, j);
    var c := keys[k][j];
    var i :| 0 <= i < |Canonical(keys)| && Canonical(keys)[i] == c;
    assert HasUpper(Canonical(keys));
  }

  lemma DistinctCountsAtMostOne(s: seq<string>, x: string)
    requires Distinct(s)
    ensures multiset(s)[x] <= 1
  {
    if |s| > 0 {
      assert s == [s[0]] + s[1..];
      DistinctCountsAtMostOne(s[1..], x);
      if s[0] == x {
        assert x !in s[1..];
      }
    }
  }

  lemma RepeatCountsTwo(s: seq<string>, i: nat, j: nat)
    requires i < j < |s| && s[i] == s[j]
    ensures multiset(s)[s[i]] >= 2
  {
    assert s == s[..j] + [s[j]] + s[j + 1..];
    assert s[i] in s[..j];
    assert multiset(s) == multiset(s[..j]) + multiset{s[j]} + multiset(s[j + 1..]);
  }

  /** The canonical form gives the keys back when no key name contains the separator. */
  lemma CanonicalRecoversSorted(keys: seq<string>)
    requires |keys| > 0
    requires forall k :: 0 <= k < |keys| ==> !Contains(keys[k], Separator)
    ensures Split(Canonical(keys), Separator) == Sort(keys)
  {
    var sk := Sort(keys);
    forall m | 0 <= m < |sk| ensures !Contains(sk[m], Separator) {
      assert sk[m] in multiset(keys);
    }
    SplitJoin(sk, Separator);
  }

  /**
   * Held keys are distinct, so a hotkey naming the same key twice can never
   * fire — provided no key name contains "+" (see RepeatedKeyMatchesPlusKey).
   */
  lemma RepeatedKeyNeverMatches(t: Tracker, keys: seq<string>, i: nat, j: nat)
    requires Valid(t)
    requires i < j < |keys| && keys[i] == keys[j]
    requires forall k :: 0 <= k < |keys| ==> !Contains(keys[k], Separator)
    requires forall k :: 0 <= k < |t.pressed| ==> !Contains(t.pressed[k], Separator)
    ensures !Matches(keys, t.pressed)
  {
    if Matches(keys, t.pressed) {
      CanonicalRecoversSorted(keys);
      CanonicalRecoversSorted(t.pressed);
      assert multiset(keys) == multiset(t.pressed);
      RepeatCountsTwo(keys, i, j);
      DistinctCountsAtMostOne(t.pressed, keys[i]);
      assert false;
    }
  }

  /** With a held key named "a+a" the hotkey "a", "a" does fire: the joined form hides the repeat. */
  lemma RepeatedKeyMatchesPlusKey()
    ensures Valid(Tracker(["a+a"], None))
    ensures Matches(["a", "a"], ["a+a"])
  {
    assert Sort(["a"]) == ["a"];
    assert Sort(["a", "a"]) == ["a", "a"];
    assert Sort(["a+a"]) == ["a+a"];
    assert !HasUpper("a+a");
  }

  // ---------------------------------------------------------------- scenarios

  /** Typing "a" into a text field leaves the held keys empty and fires nothing. */
  lemma TypingInTextFieldScenario(hotkeys: seq<Hotkey>)
    ensures KeyDown(Initial, hotkeys, KeyEvent("a", InputElement)) == Step(Initial, None)
  {
  }

  /**
   * Level triggering: holding Control, Shift and K and releasing Shift fires
   * the Control+K hotkey, with "control+k" as the active hotkey.
   */
  lemma ReleaseIntoChordScenario()
    ensures KeyUp(Tracker(["control", "shift", "k"], None), [Hotkey(["k", "control"], "Palette")], KeyEvent("Shift", OtherElement))
            == Step(Tracker(["control", "k"], Some("control+k")), Some(0))
  {
    ReleaseShiftLeavesChord();
    ChordMatchesPalette();
  }

  /** Releasing Shift from Control, Shift and K leaves Control and K, in pressing order. */
  lemma ReleaseShiftLeavesChord()
    ensures RemoveKey(["control", "shift", "k"], Lower("Shift")) == ["control", "k"]
  {
    assert Lower("Shift") == "shift";
  }

  /** Holding Control and K fires the one Control+K hotkey. */
  lemma ChordMatchesPalette()
    ensures FirstMatch([Hotkey(["k", "control"], "Palette")], ["control", "k"]) == Some(0)
    ensures Canonical(["k", "control"]) == "control+k"
  {
    ControlKCanonical();
    assert Matches(["k", "control"], ["control", "k"]);
  }

  /** Both orders of Control and K have the canonical form "control+k". */
  lemma ControlKCanonical()
    ensures Canonical(["control", "k"]) == "control+k"
    ensures Canonical(["k", "control"]) == "control+k"
  {
    assert LexLe("control", "k");
    assert Sorted(["control", "k"]);
    SortOfSorted(["control", "k"]);
    assert multiset(["k", "control"]) == multiset(["control", "k"]);
    SortPermutationInvariant(["k", "control"], ["control", "k"]);
    assert Join(["control", "k"], Separator) == "control+k";
  }

}

/**
 * The animated input of the home-page form (`AnimatedCodeInput.tsx`): while
 * the field is neither focused nor filled, a 100 ms interval types the
 * placeholder one character at a time; after the last character a 1500 ms
 * timer clears it so the typing starts over. Timers are events here.
 */
module AnimatedInput {
  import opened Wrappers

  /** The props that matter: the placeholder text, the animation switch and the controlled value. */
  datatype Props = Props(placeholder: string, animation: bool, value: Option<string>)

  /** Defaults of the optional props: an empty placeholder with the animation on. */
  function WithDefaults(placeholder: Option<string>, animation: Option<bool>, value: Option<string>): (p: Props)
    ensures p.placeholder == placeholder.GetOr("") && p.animation == animation.GetOr(true)
    ensures p.value == value
  {
    Props(placeholder.GetOr(""), animation.GetOr(true), value)
  }

  /**
   * Component state: focus, the characters typed so far, the interval's index
   * and the number of restart timers scheduled but not yet fired. Nothing
   * cancels a restart timer, so several can be pending at once.
   */
  datatype Typer = Typer(focused: bool, characters: string, currentIndex: nat, resetsPending: nat)

  const Mounted: Typer := Typer(false, "", 0, 0)

  /** The typed characters are always the first `currentIndex` characters of the placeholder. */
  predicate Valid(p: Props, t: Typer) {
    t.currentIndex <= |p.placeholder| && t.characters == p.placeholder[..t.currentIndex]
  }

  /** Whether the typing effect runs: animation on, not focused, and no non-empty value. */
  predicate Animating(p: Props, t: Typer) {
    p.animation && !t.focused && !(p.value.Some? && |p.value.value| > 0)
  }

  /** One 100 ms tick: type the next character, or at the end stop and schedule one more restart. */
  function Tick(p: Props, t: Typer): (r: Typer)
    requires Valid(p, t)
    ensures Valid(p, r)
    ensures !Animating(p, t) ==> r == t
    ensures r.focused == t.focused
    ensures Animating(p, t) && t.currentIndex < |p.placeholder|
            ==> r.currentIndex == t.currentIndex + 1 && r.characters == t.characters + [p.placeholder[t.currentIndex]]
                && r.resetsPending == t.resetsPending
    ensures Animating(p, t) && t.currentIndex == |p.placeholder|
            ==> r.characters == t.characters && r.currentIndex == t.currentIndex
                && r.resetsPending == t.resetsPending + 1
  {
    if !Animating(p, t) then t
    else if t.currentIndex < |p.placeholder| then
      assert p.placeholder[..t.currentIndex + 1] == p.placeholder[..t.currentIndex] + [p.placeholder[t.currentIndex]];
      t.(characters := t.characters + [p.placeholder[t.currentIndex]], currentIndex := t.currentIndex + 1)
    else t.(resetsPending := t.resetsPending + 1)
  }

  /**
   * One pending restart timer fires: nothing typed, index back to zero,
   * whatever has been typed since it was scheduled. Focus does not cancel it.
   */
  function ResetFires(p: Props, t: Typer): (r: Typer)
    ensures t.resetsPending > 0 ==> Valid(p, r)
    ensures t.resetsPending > 0 ==>
              && r.characters == "" && r.currentIndex == 0
              && r.resetsPending == t.resetsPending - 1 && r.focused == t.focused
    ensures t.resetsPending == 0 ==> r == t
  {
    if t.resetsPending > 0 then t.(characters := "", currentIndex := 0, resetsPending := t.resetsPending - 1)
    else t
  }

  /** `onFocus`: only the focus flag changes; typing progress and pending restarts stay. */
  function Focus(t: Typer): (r: Typer)
    ensures r.focused
    ensures r.characters == t.characters && r.currentIndex == t.currentIndex
    ensures r.resetsPending == t.resetsPending
  {
    t.(focused := true)
  }

  /** `onBlur`: only the focus flag changes. */
  function Blur(t: Typer): (r: Typer)
    ensures !r.focused
    ensures r.characters == t.characters && r.currentIndex == t.currentIndex
    ensures r.resetsPending == t.resetsPending
  {
    t.(focused := false)
  }

  /**
   * Focus pauses the typing where it is, blur resumes it from the same
   * character, and a restart scheduled before the focus still fires.
   */
  lemma FocusPausesTyping(p: Props, t: Typer)
    requires Valid(p, t)
    ensures Tick(p, Focus(t)) == Focus(t)
    ensures Blur(Focus(t)) == t.(focused := false)
    ensures t.resetsPending > 0 ==> ResetFires(p, Focus(t)).characters == ""
  {
  }

  /**
   * The tick past the end clears its interval, but any re-render starts a
   * new one (focus then blur does; so does a parent re-render, since the
   * placeholder's characters are a fresh array each time), and its first
   * tick schedules a second restart. The second restart fires after typing
   * has started over and wipes what was typed since.
   */
  lemma StrayRestartWipesProgress(p: Props)
    requires Animating(p, Mounted) && |p.placeholder| > 0
    ensures
      var done := TickN(p, Mounted, |p.placeholder|);
      var twice := Tick(p, Blur(Focus(Tick(p, done))));
      var restarted := Tick(p, ResetFires(p, twice));
      && twice.resetsPending == 2
      && restarted.characters == p.placeholder[..1]
      && ResetFires(p, restarted).characters == ""
  {
    TypesWholePlaceholder(p, Mounted, |p.placeholder|);
    var done := TickN(p, Mounted, |p.placeholder|);
    var once := Blur(Focus(Tick(p, done)));
    assert once.resetsPending == 1 && Animating(p, once);
    var cleared := ResetFires(p, Tick(p, once));
    assert cleared.currentIndex == 0 && Animating(p, cleared);
  }

  /** The text over the input: hidden, the typed characters, or the plain placeholder. */
  datatype Overlay = NoOverlay | Typed(text: string) | Plain(text: string)

  /** The overlay shows only for an explicitly empty value on an unfocused field. */
  function OverlayOf(p: Props, t: Typer): (o: Overlay)
    requires Valid(p, t)
    ensures o.NoOverlay? <==> t.focused || p.value != Some("")
    ensures o.Typed? ==> p.animation && o.text == t.characters && o.text <= p.placeholder
    ensures o.Plain? ==> !p.animation && o.text == p.placeholder
  {
    if t.focused || p.value != Some("") then NoOverlay
    else if p.animation then Typed(t.characters)
    else Plain(p.placeholder)
  }

  /** The input's own placeholder attribute: the text only while focused. */
  function NativePlaceholder(p: Props, t: Typer): (s: string)
    ensures t.focused ==> s == p.placeholder
    ensures !t.focused ==> s == ""
  {
    if t.focused then p.placeholder else ""
  }

  /** At most one of the two placeholders is visible, and with a value neither is. */
  lemma PlaceholdersExclusive(p: Props, t: Typer)
    requires Valid(p, t) && p.placeholder != ""
    ensures !(OverlayOf(p, t).Plain? && NativePlaceholder(p, t) != "")
    ensures !(OverlayOf(p, t).Typed? && NativePlaceholder(p, t) != "")
    ensures p.value.Some? && p.value.value != "" ==> OverlayOf(p, t).NoOverlay?
  {
  }

  function TickN(p: Props, t: Typer, n: nat): (r: Typer)
    requires Valid(p, t)
    ensures Valid(p, r)
    decreases n
  {
    if n == 0 then t else TickN(p, Tick(p, t), n - 1)
  }

  /** Left alone, the interval types the whole placeholder, one tick per character. */
  lemma {:induction false} TypesWholePlaceholder(p: Props, t: Typer, n: nat)
    requires Valid(p, t) && Animating(p, t) && t.currentIndex + n <= |p.placeholder|
    ensures TickN(p, t, n).currentIndex == t.currentIndex + n
    ensures TickN(p, t, n).characters == p.placeholder[..t.currentIndex + n]
    ensures Animating(p, TickN(p, t, n))
    ensures TickN(p, t, n).resetsPending == t.resetsPending
    decreases n
  {
    if n > 0 {
      TypesWholePlaceholder(p, Tick(p, t), n - 1);
    }
  }

  /** From mount, after as many ticks as characters, the placeholder is fully typed. */
  lemma MountedTypesPlaceholder(p: Props)
    requires Animating(p, Mounted)
    ensures TickN(p, Mounted, |p.placeholder|).characters == p.placeholder
  {
    TypesWholePlaceholder(p, Mounted, |p.placeholder|);
  }
}

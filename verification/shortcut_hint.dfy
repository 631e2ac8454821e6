/**
 * The keyboard-shortcut help panel (`ShortcutHint`): its visibility state
 * machine, the rendering of a key combination, and the highlighting of the
 * row whose keys form the active hotkey.
 */
module ShortcutHint {
  import opened Wrappers
  import opened Text
  import opened Sorting
  import Hotkeys

  // ---------------------------------------------------------------- visibility

  datatype Panel = Panel(visible: bool, shownInitially: bool)

  /** On mount the panel is hidden and has never been shown. */
  const Mounted: Panel := Panel(false, false)

  /** The 2500 ms timer after mounting shows the panel for the first time. */
  function ShowTimerFires(p: Panel): (r: Panel)
    ensures r.visible && r.shownInitially
  {
    Panel(true, true)
  }

  /** The 7000 ms timer that follows hides the panel. */
  function HideTimerFires(p: Panel): (r: Panel)
    ensures !r.visible && r.shownInitially == p.shownInitially
  {
    p.(visible := false)
  }

  /** The window key handler: "?" toggles, but only once the panel has been shown. */
  function KeyPress(p: Panel, key: string): (r: Panel)
    ensures r.shownInitially == p.shownInitially
    ensures key != "?" ==> r == p
    ensures !p.shownInitially ==> r == p
    ensures key == "?" && p.shownInitially ==> r.visible == !p.visible
  {
    if key == "?" && p.shownInitially then p.(visible := !p.visible) else p
  }

  /** The close button. */
  function Close(p: Panel): (r: Panel)
    ensures !r.visible && r.shownInitially == p.shownInitially
  {
    p.(visible := false)
  }

  /** Pressing "?" twice returns the panel to where it was. */
  lemma ToggleTwiceRestores(p: Panel)
    ensures KeyPress(KeyPress(p, "?"), "?") == p
  {
  }

  /** Before the first showing no key press can make the panel visible. */
  lemma HiddenUntilShown(keys: seq<string>)
    ensures PressAll(Mounted, keys) == Mounted
  {
    if |keys| > 0 {
      HiddenUntilShown(keys[1..]);
    }
  }

  function PressAll(p: Panel, keys: seq<string>): Panel
    decreases |keys|
  {
    if |keys| == 0 then p else PressAll(KeyPress(p, keys[0]), keys[1..])
  }

  // ---------------------------------------------------------------- rendering a combination

  /** One rendered element of a key combination. */
  datatype Token = KeyCap(caption: string) | PlusSign

  /** The label on a key cap: the space bar reads "Space", any other key is upper-cased. */
  function KeyLabel(k: string): (r: string)
    ensures k == " " ==> r == "Space"
    ensures k != " " ==> |r| == |k| && forall i :: 0 <= i < |k| ==> r[i] == UpperChar(k[i])
  {
    if k == " " then "Space" else Upper(k)
  }

  /** `formatKeys`: a cap per key, with a "+" between each consecutive pair. */
  function FormatKeys(keys: seq<string>): (r: seq<Token>)
    ensures |keys| == 0 ==> r == []
    ensures |keys| > 0 ==> |r| == 2 * |keys| - 1
    ensures forall i :: 0 <= i < |keys| ==> r[2 * i] == KeyCap(KeyLabel(keys[i]))
    ensures forall i :: 0 <= i < |keys| - 1 ==> r[2 * i + 1] == PlusSign
    decreases |keys|
  {
    if |keys| == 0 then []
    else if |keys| == 1 then [KeyCap(KeyLabel(keys[0]))]
    else
      var rest := FormatKeys(keys[1..]);
      var r := [KeyCap(KeyLabel(keys[0])), PlusSign] + rest;
      forall i | 1 <= i < |keys| ensures keys[i] == keys[1..][i - 1] && r[2 * i] == rest[2 * (i - 1)] {}
      forall i | 1 <= i < |keys| - 1 ensures r[2 * i + 1] == PlusSign {
        var k := i - 1;
        assert rest[2 * k + 1] == PlusSign;
        assert r[2 * i + 1] == rest[2 * k + 1];
      }
      r
  }

  function CountPlus(ts: seq<Token>): nat
    decreases |ts|
  {
    if |ts| == 0 then 0 else (if ts[0] == PlusSign then 1 else 0) + CountPlus(ts[1..])
  }

  /** n keys render with exactly n - 1 "+" signs. */
  lemma {:induction false} SeparatorCount(keys: seq<string>)
    requires |keys| > 0
    ensures CountPlus(FormatKeys(keys)) == |keys| - 1
    decreases |keys|
  {
    if |keys| > 1 {
      SeparatorCount(keys[1..]);
      var ts := FormatKeys(keys);
      assert ts[1..][1..] == FormatKeys(keys[1..]);
    }
  }

  // ---------------------------------------------------------------- the list of shortcuts

  datatype Shortcut = Shortcut(keys: seq<string>, description: string)

  datatype Row = Row(description: string, tokens: seq<Token>, highlighted: bool)

  /** The rows shown, and the shortcut list as the in-place `sort()` leaves it. */
  datatype Rendered = Rendered(rows: seq<Row>, shortcuts: seq<Shortcut>)

  /** One row: its keys sorted in place, then compared with the active hotkey and displayed. */
  function RenderRow(s: Shortcut, active: Option<string>): (r: (Row, Shortcut))
    ensures r.1 == Shortcut(Sort(s.keys), s.description)
    ensures r.0.description == s.description
    ensures r.0.tokens == FormatKeys(r.1.keys)
    ensures r.0.highlighted <==> active == Some(Hotkeys.Canonical(s.keys))
  {
    var sorted := Sort(s.keys);
    (Row(s.description, FormatKeys(sorted), active == Some(Join(sorted, Hotkeys.Separator))),
     Shortcut(sorted, s.description))
  }

  /** The panel body; nothing is shown while the panel is hidden. */
  function View(p: Panel, shortcuts: seq<Shortcut>, active: Option<string>): (r: Option<Rendered>)
    ensures !p.visible <==> r.None?
    ensures r.Some? ==> |r.value.rows| == |r.value.shortcuts| == |shortcuts|
    ensures r.Some? ==> forall i :: 0 <= i < |shortcuts| ==>
              && (r.value.rows[i], r.value.shortcuts[i]) == RenderRow(shortcuts[i], active)
  {
    if !p.visible then None
    else
      Some(Rendered(seq(|shortcuts|, i requires 0 <= i < |shortcuts| => RenderRow(shortcuts[i], active).0),
                    seq(|shortcuts|, i requires 0 <= i < |shortcuts| => RenderRow(shortcuts[i], active).1)))
  }

  /** The in-place sort shows each row's keys in ascending order, the same keys as given. */
  lemma RowKeysSorted(p: Panel, shortcuts: seq<Shortcut>, active: Option<string>, i: nat)
    requires p.visible && i < |shortcuts|
    ensures Sorted(View(p, shortcuts, active).value.shortcuts[i].keys)
    ensures multiset(View(p, shortcuts, active).value.shortcuts[i].keys) == multiset(shortcuts[i].keys)
  {
  }

  /** A second render, over the list the first one sorted, shows the same rows and sorts nothing further. */
  lemma RenderStable(p: Panel, shortcuts: seq<Shortcut>, active: Option<string>)
    requires p.visible
    ensures View(p, View(p, shortcuts, active).value.shortcuts, active) == View(p, shortcuts, active)
  {
    var once := View(p, shortcuts, active).value;
    var twice := View(p, once.shortcuts, active).value;
    forall i | 0 <= i < |shortcuts| ensures twice.rows[i] == once.rows[i] && twice.shortcuts[i] == once.shortcuts[i] {
      SortOfSorted(Sort(shortcuts[i].keys));
    }
    assert twice.rows == once.rows;
    assert twice.shortcuts == once.shortcuts;
  }

  /**
   * Once the matcher fires a hotkey, every displayed shortcut with the same
   * keys (in any order) is highlighted, and a shortcut of a different
   * canonical form is not.
   */
  lemma FiredHotkeyHighlighted(t: Hotkeys.Tracker, hotkeys: seq<Hotkeys.Hotkey>, p: Panel,
                               shortcuts: seq<Shortcut>, i: nat)
    requires Hotkeys.Evaluate(t, hotkeys).fired.Some?
    requires p.visible && i < |shortcuts|
    ensures var step := Hotkeys.Evaluate(t, hotkeys);
            View(p, shortcuts, step.tracker.active).value.rows[i].highlighted
            <==> Hotkeys.Canonical(shortcuts[i].keys) == Hotkeys.Canonical(hotkeys[step.fired.value].keys)
  {
  }
}

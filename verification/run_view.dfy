/**
 * The run panel of the editor sidebar (`RunView.tsx`): the language menu
 * ordered by name, option labels, the program input shared with the run
 * context, the Run button and the output area. Running code happens in a
 * context that is not part of this model.
 */
module RunView {
  import opened Text
  import opened Sorting

  /** A runtime offered by the execution service; no version is the empty string. */
  datatype Runtime = Runtime(language: string, version: string)

  function NameOf(r: Runtime): string { r.language }

  /** The menu entries: the supported runtimes ordered by language name. */
  function ListedRuntimes(supported: seq<Runtime>): (listed: seq<Runtime>)
    ensures SortedBy(listed, NameOf)
    ensures multiset(listed) == multiset(supported)
  {
    SortBy(supported, NameOf)
  }

  /**
   * Rendering the menu sorts the run context's own list in place: the
   * context is left holding the listed order, and the options are the
   * labels of that list, one per runtime.
   */
  datatype Menu = Menu(context: seq<Runtime>, labels: seq<string>)

  function RenderMenu(supported: seq<Runtime>): (m: Menu)
    ensures SortedBy(m.context, NameOf) && multiset(m.context) == multiset(supported)
    ensures |m.labels| == |m.context| == |supported|
    ensures forall i :: 0 <= i < |m.labels| ==> m.labels[i] == OptionLabel(m.context[i])
  {
    var listed := ListedRuntimes(supported);
    Menu(listed, seq(|listed|, i requires 0 <= i < |listed| => OptionLabel(listed[i])))
  }

  /** Rendering again from the reordered context changes neither the context nor the options. */
  lemma MenuSettles(supported: seq<Runtime>)
    ensures RenderMenu(RenderMenu(supported).context) == RenderMenu(supported)
  {
    SortByOfSorted(ListedRuntimes(supported), NameOf);
  }

  /** An option's text: the name, followed by the version in parentheses when there is one. */
  function OptionLabel(r: Runtime): (text: string)
    ensures |r.language| <= |text| && text[..|r.language|] == r.language
    ensures text == r.language <==> r.version == ""
    ensures r.version != "" ==> text[|r.language|..] == " (" + r.version + ")"
  {
    if r.version != "" then r.language + " (" + r.version + ")" else r.language
  }

  /** Different runtimes of one language get different labels. */
  lemma LabelsTellVersionsApart(a: Runtime, b: Runtime)
    requires a.language == b.language && a.version != b.version
    ensures OptionLabel(a) != OptionLabel(b)
  {
    if a.version != "" && b.version != "" {
      var n := |a.language|;
      assert OptionLabel(a)[n..] == " (" + a.version + ")";
      assert OptionLabel(b)[n..] == " (" + b.version + ")";
      var x, y := " (" + a.version + ")", " (" + b.version + ")";
      if |a.version| == |b.version| {
        assert exists k :: 0 <= k < |a.version| && a.version[k] != b.version[k];
        var k :| 0 <= k < |a.version| && a.version[k] != b.version[k];
        assert x[k + 2] == a.version[k] && y[k + 2] == b.version[k];
      } else {
        assert |x| != |y|;
      }
    }
  }

  /** The panel's state: the text area, the input handed to runs, the output and the run flag. */
  datatype Panel = Panel(inputText: string, runInput: string, output: string, isRunning: bool)

  /** Typing in the input area updates the local text and the run input together. */
  function InputChange(p: Panel, value: string): (r: Panel)
    ensures r.inputText == value && r.runInput == value
    ensures r.output == p.output && r.isRunning == p.isRunning
  {
    p.(inputText := value, runInput := value)
  }

  /** The Run button: its `disabled` flag and its caption. */
  datatype Button = Button(disabled: bool, caption: string)

  /** Disabled exactly while a run is in progress, and then captioned "Running...". */
  function RunButton(p: Panel): (b: Button)
    ensures b.disabled <==> p.isRunning
    ensures b.disabled <==> b.caption == "Running..."
    ensures !b.disabled ==> b.caption == "Run"
  {
    if p.isRunning then Button(true, "Running...") else Button(false, "Run")
  }

  /** Typing input neither enables nor disables the Run button. */
  lemma {:induction false} TypingKeepsRunButton(p: Panel, values: seq<string>)
    ensures RunButton(TypeAll(p, values)) == RunButton(p)
    decreases |values|
  {
    if |values| > 0 {
      TypingKeepsRunButton(InputChange(p, values[0]), values[1..]);
    }
  }

  const OutputPlaceholder := "Output will appear here..."

  /** The output area: the output, or the placeholder when there is none yet. */
  function OutputText(output: string): (shown: string)
    ensures |shown| > 0
    ensures output != "" ==> shown == output
    ensures output == "" ==> shown == OutputPlaceholder
  {
    if output != "" then output else OutputPlaceholder
  }

  /** After any sequence of keystrokes the two copies of the input agree. */
  lemma {:induction false} InputsAgree(p: Panel, values: seq<string>)
    requires p.inputText == p.runInput
    ensures TypeAll(p, values).inputText == TypeAll(p, values).runInput
    ensures |values| > 0 ==> TypeAll(p, values).runInput == values[|values| - 1]
    decreases |values|
  {
    if |values| > 0 {
      InputsAgree(InputChange(p, values[0]), values[1..]);
    }
  }

  function TypeAll(p: Panel, values: seq<string>): Panel
    decreases |values|
  {
    if |values| == 0 then p else TypeAll(InputChange(p, values[0]), values[1..])
  }
}

/**
 * The shared drop-down (`Select.tsx`): the options in default string
 * order, each shown with its first character upper-cased and submitted
 * under its original value.
 */
module Select {
  import opened Text
  import opened Sorting

  /** `option.charAt(0).toUpperCase() + option.slice(1)`. */
  function Capitalize(s: string): (r: string)
    ensures |r| == |s|
    ensures |s| > 0 ==> r[0] == UpperChar(s[0]) && r[1..] == s[1..]
  {
    if |s| == 0 then "" else [UpperChar(s[0])] + s[1..]
  }

  /** Capitalising changes case only: both sides agree once lowered, and doing it twice is doing it once. */
  lemma CapitalizeOnlyChangesCase(s: string)
    ensures Lower(Capitalize(s)) == Lower(s)
    ensures Capitalize(Capitalize(s)) == Capitalize(s)
    ensures |s| > 0 ==> !IsLower(Capitalize(s)[0])
  {
    if |s| > 0 {
      assert Lower(Capitalize(s))[0] == Lower(s)[0];
      assert forall i :: 1 <= i < |s| ==> Lower(Capitalize(s))[i] == Lower(s)[i];
    }
  }

  datatype Entry = Entry(value: string, name: string)

  /** The rendered options: sorted, each named by its capitalised value. */
  function Entries(options: seq<string>): (es: seq<Entry>)
    ensures |es| == |options|
    ensures forall i :: 0 <= i < |es| ==> es[i].name == Capitalize(es[i].value)
    ensures Sorted(Values(es))
    ensures multiset(Values(es)) == multiset(options)
  {
    var sorted := Sort(options);
    var es := seq(|sorted|, i requires 0 <= i < |sorted| => Entry(sorted[i], Capitalize(sorted[i])));
    assert Values(es) == sorted;
    es
  }

  /** The submitted values of the options, in menu order. */
  function Values(es: seq<Entry>): (vs: seq<string>)
    ensures |vs| == |es| && forall i :: 0 <= i < |es| ==> vs[i] == es[i].value
  {
    seq(|es|, i requires 0 <= i < |es| => es[i].value)
  }

  /**
   * `options.sort()` reorders the caller's array in place: after a render
   * the caller holds the options in menu order.
   */
  datatype View = View(options: seq<string>, entries: seq<Entry>)

  function Render(options: seq<string>): (v: View)
    ensures v.options == Values(v.entries)
    ensures Sorted(v.options) && multiset(v.options) == multiset(options)
  {
    var es := Entries(options);
    View(Values(es), es)
  }

  /** Rendering again from the reordered array changes neither the array nor the menu. */
  lemma RenderSettles(options: seq<string>)
    ensures Render(Render(options).options) == Render(options)
  {
    SortPermutationInvariant(Render(options).options, options);
  }

  /** The menu does not depend on the order the options arrive in. */
  lemma EntriesOrderFree(a: seq<string>, b: seq<string>)
    requires multiset(a) == multiset(b)
    ensures Entries(a) == Entries(b)
  {
    SortPermutationInvariant(a, b);
  }
}

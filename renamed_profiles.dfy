/** The "Update renamed presets" dialog: one check box per renamed preset, all
    ticked at first; the selection is the renamed presets whose box is ticked. */
module RenamedProfiles {
  import opened PresetTypes

  /** One rename the project could follow (RenameUpdateOption). */
  datatype RenameUpdateOption = RenameUpdateOption(presetType: PresetType, oldName: string, newName: string)

  function Min(a: nat, b: nat): nat
  {
    if a <= b then a else b
  }

  /** The indices below `n` whose box is ticked, in increasing order. */
  function CheckedIndices(checked: seq<bool>, n: nat): (idx: seq<nat>)
    requires n <= |checked|
    ensures |idx| <= n
    ensures forall k :: 0 <= k < |idx| ==> idx[k] < n && checked[idx[k]]
    ensures forall k, l :: 0 <= k < l < |idx| ==> idx[k] < idx[l]
    ensures forall i :: 0 <= i < n && checked[i] ==> i in idx
  {
    if n == 0 then []
    else CheckedIndices(checked, n - 1) + (if checked[n - 1] then [n - 1] else [])
  }

  /** The options among the first `n` whose box is ticked, in order. */
  function SelectedUpTo(options: seq<RenameUpdateOption>, checked: seq<bool>, n: nat): seq<RenameUpdateOption>
    requires n <= |options| && n <= |checked|
  {
    if n == 0 then []
    else SelectedUpTo(options, checked, n - 1) + (if checked[n - 1] then [options[n - 1]] else [])
  }

  /** What `selection` returns: only positions present in both sequences count. */
  function Selected(options: seq<RenameUpdateOption>, checked: seq<bool>): seq<RenameUpdateOption>
  {
    SelectedUpTo(options, checked, Min(|options|, |checked|))
  }

  lemma {:induction false} SelectedUpToIsCheckedOptions(options: seq<RenameUpdateOption>, checked: seq<bool>, n: nat)
    requires n <= |options| && n <= |checked|
    ensures var idx := CheckedIndices(checked, n);
      |SelectedUpTo(options, checked, n)| == |idx| &&
      forall k :: 0 <= k < |idx| ==> SelectedUpTo(options, checked, n)[k] == options[idx[k]]
  {
    if n > 0 {
      SelectedUpToIsCheckedOptions(options, checked, n - 1);
    }
  }

  /** The selection is exactly the options at the ticked positions below
      min(#options, #check boxes), in their original order; so it is never
      longer than that minimum. */
  lemma SelectionIsCheckedOptions(options: seq<RenameUpdateOption>, checked: seq<bool>)
    ensures var n := Min(|options|, |checked|);
      var idx := CheckedIndices(checked, n);
      |Selected(options, checked)| == |idx| <= n &&
      forall k :: 0 <= k < |idx| ==> Selected(options, checked)[k] == options[idx[k]]
  {
    SelectedUpToIsCheckedOptions(options, checked, Min(|options|, |checked|));
  }

  lemma {:induction false} AllTickedSelectsAll(options: seq<RenameUpdateOption>, checked: seq<bool>, n: nat)
    requires n <= |options| && n <= |checked|
    requires forall i :: 0 <= i < n ==> checked[i]
    ensures SelectedUpTo(options, checked, n) == options[..n]
  {
    if n > 0 {
      AllTickedSelectsAll(options, checked, n - 1);
      assert options[..n] == options[..n - 1] + [options[n - 1]];
    }
  }

  class RenamedProfilesDialog {
    const options: seq<RenameUpdateOption>
    /** The state of each check box, one per row of the dialog. */
    var checkboxes: seq<bool>

    /** Builds one row per option, each with a ticked check box. */
    constructor (options: seq<RenameUpdateOption>)
      ensures this.options == options
      ensures |checkboxes| == |options|
      ensures forall i :: 0 <= i < |checkboxes| ==> checkboxes[i]
    {
      this.options := options;
      var boxes: seq<bool> := [];
      for i := 0 to |options|
        invariant |boxes| == i
        invariant forall j :: 0 <= j < i ==> boxes[j]
      {
        boxes := boxes + [true];
      }
      checkboxes := boxes;
    }

    /** The user ticks or clears the check box of row `i`. */
    method SetChecked(i: nat, value: bool)
      requires i < |checkboxes|
      modifies this
      ensures checkboxes == old(checkboxes)[i := value]
    {
      checkboxes := checkboxes[i := value];
    }

    /** The options whose check box is ticked. */
    method Selection() returns (selected: seq<RenameUpdateOption>)
      ensures selected == Selected(options, checkboxes)
    {
      selected := [];
      var count := Min(|options|, |checkboxes|);
      for idx := 0 to count
        invariant selected == SelectedUpTo(options, checkboxes, idx)
      {
        if checkboxes[idx] {
          selected := selected + [options[idx]];
        }
      }
    }
  }

  /** Right after construction the selection holds every option. */
  lemma InitialSelectionIsAll(options: seq<RenameUpdateOption>, checked: seq<bool>)
    requires |checked| == |options|
    requires forall i :: 0 <= i < |checked| ==> checked[i]
    ensures Selected(options, checked) == options
  {
    AllTickedSelectsAll(options, checked, |options|);
  }
}

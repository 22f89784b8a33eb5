# Preset rename bookkeeping and rename dialogs (OrcaSlicer), in Dafny

This project models the part of OrcaSlicer that remembers renamed presets and
the two dialogs built around it:

- **RenameHistory** (`rename_history.dfy`): `PresetRenameHistory`, the
  append-only list of `(type, old name, new name, timestamp)` rename entries.
  It covers `add_entry` with its guards, the entry-acceptance filter of `load`,
  the type-name conversions `type_to_string` and `type_from_string`, and
  `resolve`. `resolve` follows chains of renames towards the newest name. It
  always uses the most recent matching entry, stops when it meets a name it has
  already visited, and gives up after 32 lookups. So it reaches the newest name
  only for chains of at most 32 renames. A longer chain of different names
  stops at the name reached after 32 renames, although that name was renamed
  again. The header comment of `resolve` promises "the latest name" without
  this limit (PresetRenameHistory.hpp:28); `ResolveTruncates` states what the
  code does.

  The class keeps its entries in a `seq` field, which `Load` and `AddEntry`
  reassign. `Resolve` and its reverse search `FindLastRename` are loops, each
  proved equal to a recursive specification: `Walk` and `Resolved` for the
  first, `LastMatch` for the second. `ResolveStep` is one pass of the lookup
  loop. Lemmas about the specification give:
  - soundness: a result is a different, non-empty name reached in 1 to 32 renames;
  - completeness: a chain of different names that ends within 32 renames is
    followed to its end;
  - cycles: a chain that returns to the input within 32 renames yields nothing;
  - the converse: nothing is returned only for the invalid type, an empty name,
    a name nobody renamed, or a chain that returns to the input within 32
    renames;
  - cycles not through the input: a chain that enters a cycle within 32
    renames without passing through the input again returns the first name
    it meets twice;
  - truncation: a chain of more than 32 different names stops at the 32nd
    rename;
  - overriding: an appended entry overrides earlier renames of the same name
    and type;
  - persistence: a save/load round trip keeps exactly the printer and filament
    entries. `add_entry` accepts a rename of any valid type, for example a
    print preset. But `type_to_string` writes such a type as "unknown", and
    `load` drops it. So the rename is kept for the session and lost at the
    next start.
- **RenamePreset** (`rename_preset.dfy`): the "Rename preset" dialog.
  - `Trimmed` removes leading and trailing white space, as
    `boost::algorithm::trim_copy` does in the classic locale.
  - `Validate` is the ordered rule chain of `update_state`. Its contract uses
    `Violates`, which defines each rule on its own. The reported error breaks
    its rule and passes every earlier one. No error means no rule is broken.
  - The dialog class keeps the trimmed name, the Rename button's enabled state
    and the message label.
- **RenamedProfiles** (`renamed_profiles.dfy`): the "Update renamed presets"
  dialog. It has one check box per option, all ticked at construction.
  `Selection` is the loop that keeps the ticked options. It is proved equal to
  `Selected`, which is characterised by `CheckedIndices`: the ticked positions
  below min(#options, #check boxes), in increasing order.

`PresetTypes` names the preset kinds that the modelled code distinguishes.
Preset.hpp is not part of this model. `Other` stands for every enumerator
that this code does not test for. `Wrappers` holds `Option`, which models
`std::optional` and nullable pointers.

The preset collection's lookups are parameters of the dialog model
(`PresetLookup`). These are `find_preset`, reduced to the name of the preset it
finds, and `get_preset_name_by_alias`. The modified-preset suffix from
`get_suffix_modified` is a parameter too. The wall-clock timestamp of
`add_entry` is a parameter of `AddEntry`. The history file's decoded items are
a parameter of `Load`. A missing or unreadable file gives an empty item list.

## Model

| member | source | states |
|---|---|---|
| RenameHistory.DefaultEntry | src/libslic3r/PresetRenameHistory.hpp:14-19 | a default entry has the invalid type, empty names and timestamp 0, so the load filter would reject it |
| RenameHistory.TypeToString | src/libslic3r/PresetRenameHistory.cpp:129-136 | the written type name is always one of "printer", "filament", "unknown" |
| RenameHistory.TypeFromString | src/libslic3r/PresetRenameHistory.cpp:138-145 | reading a type name only ever yields printer, filament or invalid |
| RenameHistory.TypeRoundTrip | src/libslic3r/PresetRenameHistory.cpp:129-145 | printer and filament survive to-string then from-string; every other type is written "unknown" and reads back as invalid |
| RenameHistory.StringRoundTrip | src/libslic3r/PresetRenameHistory.cpp:138-145 | a string reads as a valid type exactly when it is "printer" or "filament", and then it is that type's canonical name |
| RenameHistory.WellFormed | src/libslic3r/PresetRenameHistory.cpp:57 | definition, no contract: the acceptance test of load (valid type, non-empty old and new names) |
| RenameHistory.AllWellFormed | src/libslic3r/PresetRenameHistory.cpp:57-59 | definition, no contract: every stored entry passes the acceptance test, the invariant of the list |
| RenameHistory.Decode | src/libslic3r/PresetRenameHistory.cpp:50-59 | an item becomes an entry exactly when it is an object whose type name is valid and whose old and new names are non-empty; such an entry is well-formed |
| RenameHistory.AcceptedEntries | src/libslic3r/PresetRenameHistory.cpp:49-60 | every entry that load keeps is well-formed, and there are no more entries than items |
| RenameHistory.SavedItems | src/libslic3r/PresetRenameHistory.cpp:71-77 | save writes one item per entry, in order, with the entry's type name, names and timestamp |
| RenameHistory.PersistentEntries | src/libslic3r/PresetRenameHistory.cpp:129-136 | the entries whose type has a name of its own in the file are printer or filament entries |
| RenameHistory.SaveLoadRoundTrip | src/libslic3r/PresetRenameHistory.cpp:49-77 | loading what save writes gives back exactly the printer and filament entries, in order; entries of other valid types are lost |
| RenameHistory.LastMatch | src/libslic3r/PresetRenameHistory.cpp:113-116 | the reverse search finds the last entry with the same type and old name: it matches and no later entry matches, or none matches at all |
| RenameHistory.Step | src/libslic3r/PresetRenameHistory.cpp:113-118 | definition, no contract: the new name of the entry LastMatch finds, or nothing when none matches |
| RenameHistory.StepAfterAppend | src/libslic3r/PresetRenameHistory.cpp:113-118 | after an append, a lookup of the new entry's type and old name gives the new entry's new name; every other lookup is unchanged (other types are ignored) |
| RenameHistory.Walk | src/libslic3r/PresetRenameHistory.cpp:112-122 | definition, no contract: the loop from a given current name, visited set, number of remaining lookups and changed flag, giving the final current name and changed flag |
| RenameHistory.Resolved | src/libslic3r/PresetRenameHistory.cpp:102-127 | definition, no contract: nothing for the invalid type or an empty name; otherwise the walk from the input with 32 lookups, returned when it changed and differs from the input |
| RenameHistory.ResolveRejectsInvalid | src/libslic3r/PresetRenameHistory.cpp:104-105 | resolve returns nothing for the invalid type or an empty name |
| RenameHistory.ResolveUnrenamed | src/libslic3r/PresetRenameHistory.hpp:28-29 | a name that no entry renames resolves to nothing |
| RenameHistory.FollowNonEmpty | src/libslic3r/PresetRenameHistory.cpp:118 | with well-formed entries, every name reached by at least one rename is non-empty |
| RenameHistory.WalkSound | src/libslic3r/PresetRenameHistory.cpp:107-122 | the loop ends on its start name or on a name reached by 1 to (remaining lookups) renames; it reports no change only when it ended on the start name or on an already-visited one |
| RenameHistory.ResolveSound | src/libslic3r/PresetRenameHistory.cpp:107-126 | a returned name differs from the input, is non-empty, and is reached from the input by following between 1 and 32 renames |
| RenameHistory.WalkReachesEnd | src/libslic3r/PresetRenameHistory.cpp:112-122 | a chain of pairwise different, unvisited names that ends at an unrenamed name within the remaining lookups is followed to that name |
| RenameHistory.ResolveLatest | src/libslic3r/PresetRenameHistory.hpp:28-29 | when the renames from the input pass through pairwise different names and stop after 1 to 32 steps, resolve returns the name where they stop: the latest name |
| RenameHistory.WalkMoves | src/libslic3r/PresetRenameHistory.cpp:112-122 | a walk whose start name has a rename ends on a name reached by 1 to (remaining lookups) renames |
| RenameHistory.ResolveNoneCases | src/libslic3r/PresetRenameHistory.hpp:28-29 | resolve yields nothing only for the invalid type, an empty name, a name no entry renames, or a name its renames lead back to within 32 steps |
| RenameHistory.WalkExhausts | src/libslic3r/PresetRenameHistory.cpp:112-122 | a chain of pairwise different, unvisited names is followed until the lookups run out, ending on the name reached by as many renames as there were lookups |
| RenameHistory.ResolveTruncates | src/libslic3r/PresetRenameHistory.cpp:17 | when the renames from the input pass through 33 pairwise different names and the last was renamed again, resolve returns the name reached after 32 renames, which still has a rename: not the latest name |
| RenameHistory.WalkStopsAtCycle | src/libslic3r/PresetRenameHistory.cpp:118-120 | a chain of pairwise different names whose next step reaches a name visited before the walk or met on the way stops at that name |
| RenameHistory.ResolveCycle | src/libslic3r/PresetRenameHistory.cpp:119-126 | a chain that cycles back to the input within 32 steps resolves to nothing |
| RenameHistory.ResolveEntersCycle | src/libslic3r/PresetRenameHistory.cpp:118-126 | a chain of pairwise different names whose k-th rename returns to its i-th name (1 <= i < k <= 32) resolves to that i-th name, the first name met twice |
| RenameHistory.PresetRenameHistory.constructor | src/libslic3r/PresetRenameHistory.cpp:26-31 | a new history holds exactly the entries that load accepts from the file's items, all well-formed |
| RenameHistory.PresetRenameHistory.Load | src/libslic3r/PresetRenameHistory.cpp:33-64 | load clears the list and then appends, in file order, exactly the accepted entries; the invariant that every entry is well-formed holds afterwards |
| RenameHistory.PresetRenameHistory.AddEntry | src/libslic3r/PresetRenameHistory.cpp:87-100 | the list is unchanged for the invalid type, an empty name or equal names; otherwise exactly one entry with the given type, names and timestamp is appended and earlier entries are unchanged; the invariant is preserved |
| RenameHistory.PresetRenameHistory.Entries | src/libslic3r/PresetRenameHistory.hpp:31 | the read-only accessor returns stored entries, all well-formed |
| RenameHistory.PresetRenameHistory.FindLastRename | src/libslic3r/PresetRenameHistory.cpp:113-117 | the reverse scan returns the index that LastMatch specifies, and reads the list without changing it |
| RenameHistory.PresetRenameHistory.ResolveStep | src/libslic3r/PresetRenameHistory.cpp:113-121 | one lookup either stops (no matching entry, or a name already visited) with the loop's final current and changed, or moves on to a state whose walk with one lookup fewer has the same outcome |
| RenameHistory.PresetRenameHistory.Resolve | src/libslic3r/PresetRenameHistory.cpp:102-127 | the bounded loop over current, visited and changed returns exactly Resolved of the stored entries, and changes nothing |
| RenamePreset.IsSpace | src/slic3r/GUI/RenamePresetDialog.cpp:30-33 | definition, no contract: the six white-space characters of the classic locale that trim_copy removes |
| RenamePreset.LeadingSpaces | src/slic3r/GUI/RenamePresetDialog.cpp:30-33 | the count of leading characters removed: all of them white space, and the next character (if any) is not |
| RenamePreset.TrailingSpaces | src/slic3r/GUI/RenamePresetDialog.cpp:30-33 | the count of trailing characters removed: all of them white space, and the character before them (if any) is not |
| RenamePreset.Trimmed | src/slic3r/GUI/RenamePresetDialog.cpp:30-33 | the result is a contiguous part of the input with only white space cut on either side; it is empty exactly when the input is all white space, and otherwise it starts and ends with a non-space character |
| RenamePreset.TrimmedIdempotent | src/slic3r/GUI/RenamePresetDialog.cpp:30-33 | trimming a trimmed name changes nothing |
| RenamePreset.Validate | src/slic3r/GUI/RenamePresetDialog.cpp:124-149 | a reported error is a broken rule, and every rule before it in the chain order (empty, same as original, leading space, trailing space, illegal characters, modified suffix if non-empty, reserved names, existing preset, alias) passes; no error means no rule is broken |
| RenamePreset.TrimmedNameHasNoSpaceError | src/slic3r/GUI/RenamePresetDialog.cpp:113-131 | because the name is trimmed first, the leading-space and trailing-space errors are never the reported failure |
| RenamePreset.BlankInputIsEmpty | src/slic3r/GUI/RenamePresetDialog.cpp:113-125 | input made only of white space is reported as an empty name |
| RenamePreset.OriginalNameRefused | src/slic3r/GUI/RenamePresetDialog.cpp:124-127 | a non-empty, already trimmed original name is refused as unchanged, as when the dialog opens |
| RenamePreset.RenamePresetDialog.constructor | src/slic3r/GUI/RenamePresetDialog.cpp:36-99 | the dialog keeps the collection, type and original name, and shows the validation of the input, which starts out as the original name |
| RenamePreset.RenamePresetDialog.UpdateState | src/slic3r/GUI/RenamePresetDialog.cpp:108-155 | the new name is the trimmed input, the message is the chain's verdict, OK is enabled exactly when there is no error, and the message is shown exactly when there is one |
| RenamedProfiles.CheckedIndices | src/slic3r/GUI/RenamedProfilesDialog.cpp:78-82 | the ticked positions below the bound, strictly increasing, each ticked, and every ticked position below the bound is present |
| RenamedProfiles.SelectedUpToIsCheckedOptions | src/slic3r/GUI/RenamedProfilesDialog.cpp:79-82 | the options kept from the first n positions are the options at the ticked positions, in order |
| RenamedProfiles.SelectedUpTo | src/slic3r/GUI/RenamedProfilesDialog.cpp:79-82 | definition, no contract: the options among the first n whose box is ticked, in order |
| RenamedProfiles.Selected | src/slic3r/GUI/RenamedProfilesDialog.cpp:75-84 | definition, no contract: SelectedUpTo at min(#options, #check boxes) |
| RenamedProfiles.SelectionIsCheckedOptions | src/slic3r/GUI/RenamedProfilesDialog.cpp:75-84 | the selection is exactly the options whose box is ticked, among positions below min(#options, #check boxes), in their original order, and is no longer than that minimum |
| RenamedProfiles.AllTickedSelectsAll | src/slic3r/GUI/RenamedProfilesDialog.cpp:79-82 | when the first n boxes are ticked, the first n options are all kept |
| RenamedProfiles.InitialSelectionIsAll | src/slic3r/GUI/RenamedProfilesDialog.cpp:46-57 | with one ticked box per option, as the constructor leaves it, the selection is all options |
| RenamedProfiles.RenamedProfilesDialog.constructor | src/slic3r/GUI/RenamedProfilesDialog.cpp:22-73 | the dialog keeps the options and creates one check box per option, all ticked |
| RenamedProfiles.RenamedProfilesDialog.SetChecked | src/slic3r/GUI/RenamedProfilesDialog.cpp:48-49 | ticking or clearing one box changes that box's state only |
| RenamedProfiles.RenamedProfilesDialog.Selection | src/slic3r/GUI/RenamedProfilesDialog.cpp:75-84 | the loop returns Selected of the options and the box states, and changes neither |

## Left out

- JSON decoding and encoding, paths and directory creation in `load` and
  `save` (PresetRenameHistory.cpp:33-85): file I/O. `Load` takes the items that
  decoding yields, with the default values already filled in for missing
  keys. `save` is modelled only as the item list it writes (`SavedItems`).
- A JSON value of the wrong type makes `item.value` throw, and the catch-all
  handler then keeps the entries loaded before it. The model assumes that
  decoding succeeds for every item.
- `add_entry` calls `save` after appending. This file write is I/O and is not
  modelled.
- The timestamp comes from the system clock. `AddEntry` takes it as a parameter.
- The singleton `instance()` is left out: the model works on explicit objects.
- `find_preset`, `get_preset_name_by_alias` and `get_suffix_modified` belong to
  PresetCollection, which is not part of this model. They are parameters.
- Message texts, their localisation, `type_label` and `describe_option`
  (formatted, localised strings) are left out. The message label holds the
  error kind. An error message is never empty, so "shown when non-empty" is
  "shown when there is an error".
- Widget layout, DPI handling, dark mode, focus and the OK/Cancel and Enter
  bindings that close the dialogs are left out. `SetChecked` stands for the
  user changing a check box.
- Strings are sequences of characters, and white space is the six characters
  of the classic locale. UTF-8 conversion (`into_u8`, `from_u8`) is not modelled.
- The timestamp is an unbounded integer, not a 64-bit `long long`. Nothing in
  the model computes with it.

/** The "Rename preset" dialog: the candidate name is the trimmed input, and an
    ordered chain of rules decides whether it may be used and which message the
    dialog shows. */
module RenamePreset {
  import opened Wrappers
  import opened PresetTypes

  // ---------------------------------------------------------------------
  // Trimming (boost::algorithm::trim_copy in the classic locale)

  /** The characters std::isspace accepts in the "C" locale. */
  predicate IsSpace(c: char)
  {
    c == ' ' || c == '\t' || c == '\n' || c == '\U{000B}' || c == '\U{000C}' || c == '\r'
  }

  /** The number of white-space characters the input starts with. */
  function LeadingSpaces(s: string): (n: nat)
    ensures n <= |s|
    ensures forall k :: 0 <= k < n ==> IsSpace(s[k])
    ensures n < |s| ==> !IsSpace(s[n])
  {
    if s != [] && IsSpace(s[0]) then 1 + LeadingSpaces(s[1..]) else 0
  }

  /** The number of white-space characters the input ends with. */
  function TrailingSpaces(s: string): (n: nat)
    ensures n <= |s|
    ensures forall k :: |s| - n <= k < |s| ==> IsSpace(s[k])
    ensures n < |s| ==> !IsSpace(s[|s| - n - 1])
  {
    if s != [] && IsSpace(s[|s| - 1]) then 1 + TrailingSpaces(s[..|s| - 1]) else 0
  }

  /** The input without its leading and trailing white space. */
  function Trimmed(s: string): (r: string)
    ensures r == [] || (!IsSpace(r[0]) && !IsSpace(r[|r| - 1]))
    ensures r == [] <==> forall k :: 0 <= k < |s| ==> IsSpace(s[k])
    ensures exists i, j :: (0 <= i <= j <= |s| && r == s[i..j] &&
      (forall k :: 0 <= k < i ==> IsSpace(s[k])) &&
      (forall k :: j <= k < |s| ==> IsSpace(s[k])))
  {
    var start := LeadingSpaces(s);
    var rest := s[start..];
    var r := rest[..|rest| - TrailingSpaces(rest)];
    assert r == s[start..start + |r|];
    r
  }

  /** Trimming twice is trimming once. */
  lemma TrimmedIdempotent(s: string)
    ensures Trimmed(Trimmed(s)) == Trimmed(s)
  {
  }

  // ---------------------------------------------------------------------
  // The validation rules

  /** Why a candidate name is refused, one kind per message of the dialog. */
  datatype RenameError =
    | EmptyName
    | SameAsOriginal
    | LeadingSpace
    | TrailingSpace
    | IllegalCharacters
    | IllegalSuffix
    | Unavailable
    | AlreadyExists
    | AliasName

  /** The characters a preset name must not contain. */
  const IllegalChars: string := "<>[]:/\\|?*\""

  /** Names of the built-in default presets. */
  const ReservedNames: set<string> := {"Default Setting", "Default Filament", "Default Printer"}

  /** What the dialog asks of the preset collection: `findPreset` gives the
      name of the preset `find_preset` finds for a name (if any), `nameByAlias`
      the preset name an alias stands for (the name itself when it is none). */
  datatype PresetLookup = PresetLookup(findPreset: string -> Option<string>, nameByAlias: string -> string)

  /** `sub` occurs in `s` starting at position `i`. */
  predicate OccursAt(s: string, sub: string, i: int)
  {
    0 <= i && i + |sub| <= |s| && s[i..i + |sub|] == sub
  }

  /** `sub` occurs somewhere in `s` (std::string::find succeeds). */
  predicate Contains(s: string, sub: string)
  {
    exists i :: 0 <= i <= |s| - |sub| && OccursAt(s, sub, i)
  }

  /** The position of each rule in the order the dialog checks them. */
  function Rank(e: RenameError): nat
  {
    match e
    case EmptyName => 0
    case SameAsOriginal => 1
    case LeadingSpace => 2
    case TrailingSpace => 3
    case IllegalCharacters => 4
    case IllegalSuffix => 5
    case Unavailable => 6
    case AlreadyExists => 7
    case AliasName => 8
  }

  /** Each rule on its own: the name breaks the rule behind error `e`. */
  predicate Violates(e: RenameError, name: string, original: string, suffix: string,
                     collection: Option<PresetLookup>)
  {
    match e
    case EmptyName => |name| == 0
    case SameAsOriginal => name == original
    case LeadingSpace => 0 < |name| && name[0] == ' '
    case TrailingSpace => 0 < |name| && name[|name| - 1] == ' '
    case IllegalCharacters => exists k :: 0 <= k < |name| && name[k] in IllegalChars
    case IllegalSuffix => |suffix| > 0 && Contains(name, suffix)
    case Unavailable => name in ReservedNames
    case AlreadyExists => collection.Some? && collection.value.findPreset(name) == Some(name)
    case AliasName => collection.Some? && collection.value.nameByAlias(name) != name
  }

  /** The rule chain of `update_state`: the error whose message the dialog
      shows, or None when the name may be used. The first broken rule wins. */
  function Validate(name: string, original: string, suffix: string,
                    collection: Option<PresetLookup>): (r: Option<RenameError>)
    ensures r.Some? ==> Violates(r.value, name, original, suffix, collection)
    ensures r.Some? ==> forall e :: Rank(e) < Rank(r.value) ==>
      !Violates(e, name, original, suffix, collection)
    ensures r.None? ==> forall e :: !Violates(e, name, original, suffix, collection)
  {
    var staticError :=
      if name == [] then Some(EmptyName)
      else if name == original then Some(SameAsOriginal)
      else if name[0] == ' ' then Some(LeadingSpace)
      else if name[|name| - 1] == ' ' then Some(TrailingSpace)
      else if exists k :: 0 <= k < |name| && name[k] in IllegalChars then Some(IllegalCharacters)
      else if suffix != [] && Contains(name, suffix) then Some(IllegalSuffix)
      else if name == "Default Setting" || name == "Default Filament" || name == "Default Printer" then Some(Unavailable)
      else None;
    if staticError.Some? then staticError
    else if collection.Some? && collection.value.findPreset(name) == Some(name) then Some(AlreadyExists)
    else if collection.Some? && collection.value.nameByAlias(name) != name then Some(AliasName)
    else None
  }

  /** Since the candidate is trimmed first, the two white-space rules never
      decide the outcome. */
  lemma TrimmedNameHasNoSpaceError(input: string, original: string, suffix: string,
                                   collection: Option<PresetLookup>)
    ensures var r := Validate(Trimmed(input), original, suffix, collection);
      r != Some(LeadingSpace) && r != Some(TrailingSpace)
  {
  }

  /** Input made only of white space is reported as empty. */
  lemma BlankInputIsEmpty(input: string, original: string, suffix: string,
                          collection: Option<PresetLookup>)
    requires forall k :: 0 <= k < |input| ==> IsSpace(input[k])
    ensures Validate(Trimmed(input), original, suffix, collection) == Some(EmptyName)
  {
  }

  /** The dialog opens on the preset's own name, which it refuses as unchanged
      (when that name is non-empty and has no surrounding white space). */
  lemma OriginalNameRefused(original: string, suffix: string, collection: Option<PresetLookup>)
    requires original != [] && Trimmed(original) == original
    ensures Validate(Trimmed(original), original, suffix, collection) == Some(SameAsOriginal)
  {
  }

  // ---------------------------------------------------------------------
  // The dialog

  class RenamePresetDialog {
    const collection: Option<PresetLookup>
    const presetType: PresetType
    const originalName: string
    var newName: string
    /** Whether the Rename (OK) button is enabled. */
    var okEnabled: bool
    /** The message label's content; None stands for the empty label. */
    var message: Option<RenameError>
    var messageShown: bool

    /** The widgets show the outcome of validating input `text`. */
    ghost predicate ShowsValidationOf(text: string, suffix: string)
      reads this
    {
      newName == Trimmed(text) &&
      message == Validate(newName, originalName, suffix, collection) &&
      okEnabled == message.None? &&
      messageShown == message.Some?
    }

    /** Opens the dialog on preset `presetName`; the input starts out holding that
        name. `suffix` is the collection's modified-preset suffix. */
    constructor (collection: Option<PresetLookup>, presetType: PresetType, presetName: string, suffix: string)
      ensures this.collection == collection && this.presetType == presetType
      ensures originalName == presetName
      ensures ShowsValidationOf(presetName, suffix)
    {
      this.collection := collection;
      this.presetType := presetType;
      originalName := presetName;
      newName := presetName;
      okEnabled := false;
      message := None;
      messageShown := false;
      new;
      UpdateState(presetName, suffix);
    }

    /** Re-validates after the input changed to `text`. */
    method UpdateState(text: string, suffix: string)
      modifies this
      ensures ShowsValidationOf(text, suffix)
    {
      newName := Trimmed(text);
      var error := Validate(newName, originalName, suffix, collection);
      okEnabled := error.None?;
      message := error;
      messageShown := error.Some?;
    }
  }
}

/** The append-only history of preset renames (PresetRenameHistory): which
    printer or filament preset was renamed from what to what, and the lookup
    that follows chains of renames to the newest name. */
module RenameHistory {
  import opened Wrappers
  import opened PresetTypes

  /** Resolution gives up after this many lookups (kMaxResolveDepth). */
  const MaxResolveDepth: nat := 32

  datatype RenameHistoryEntry = RenameHistoryEntry(
    presetType: PresetType,
    oldName: string,
    newName: string,
    timestamp: int)

  /** The value of a default-constructed entry. */
  function DefaultEntry(): (e: RenameHistoryEntry)
    ensures !WellFormed(e) && e.timestamp == 0
    ensures e.presetType == Invalid && e.oldName == [] && e.newName == []
  {
    RenameHistoryEntry(Invalid, [], [], 0)
  }

  /** The acceptance filter of `load`: what every stored entry satisfies. */
  predicate WellFormed(e: RenameHistoryEntry)
  {
    e.presetType != Invalid && e.oldName != [] && e.newName != []
  }

  predicate AllWellFormed(es: seq<RenameHistoryEntry>)
  {
    forall i :: 0 <= i < |es| ==> WellFormed(es[i])
  }

  // ---------------------------------------------------------------------
  // Type names as written to and read from the history file

  function TypeToString(t: PresetType): (s: string)
    ensures s == "printer" || s == "filament" || s == "unknown"
  {
    match t
    case Printer => "printer"
    case Filament => "filament"
    case _ => "unknown"
  }

  function TypeFromString(s: string): (t: PresetType)
    ensures t == Invalid || t == Printer || t == Filament
  {
    if s == "printer" then Printer
    else if s == "filament" then Filament
    else Invalid
  }

  /** Printer and filament survive the string round trip; every other kind
      becomes "unknown", which reads back as Invalid. */
  lemma TypeRoundTrip(t: PresetType)
    ensures t == Printer || t == Filament ==> TypeFromString(TypeToString(t)) == t
    ensures t != Printer && t != Filament ==>
      TypeToString(t) == "unknown" && TypeFromString(TypeToString(t)) == Invalid
  {
  }

  /** A string that names a valid type is the canonical name of that type. */
  lemma StringRoundTrip(s: string)
    ensures TypeFromString(s) != Invalid <==> s == "printer" || s == "filament"
    ensures TypeFromString(s) != Invalid ==> TypeToString(TypeFromString(s)) == s
  {
  }

  // ---------------------------------------------------------------------
  // Loading: the entry-acceptance filter over the decoded file items

  /** One element of the "entries" array of the history file, after the
      defaults of `item.value(key, default)` were applied to missing keys. */
  datatype LoadItem =
    | NotAnObject
    | Item(typeName: string, oldName: string, newName: string, timestamp: int)

  /** The entry a loaded item becomes, if the filter accepts it. */
  function Decode(item: LoadItem): (r: Option<RenameHistoryEntry>)
    ensures r.Some? ==> WellFormed(r.value)
    ensures r.Some? <==> item.Item? && TypeFromString(item.typeName) != Invalid
                         && item.oldName != [] && item.newName != []
  {
    match item
    case NotAnObject => None
    case Item(typeName, oldName, newName, timestamp) =>
      var e := RenameHistoryEntry(TypeFromString(typeName), oldName, newName, timestamp);
      if WellFormed(e) then Some(e) else None
  }

  /** The entries `load` keeps from the decoded items, in file order. */
  function AcceptedEntries(items: seq<LoadItem>): (es: seq<RenameHistoryEntry>)
    ensures AllWellFormed(es)
    ensures |es| <= |items|
  {
    if items == [] then []
    else
      var prefix := AcceptedEntries(items[..|items| - 1]);
      match Decode(items[|items| - 1])
      case Some(e) => prefix + [e]
      case None => prefix
  }

  /** The items `save` would write for the stored entries. */
  function SavedItems(es: seq<RenameHistoryEntry>): (items: seq<LoadItem>)
    ensures |items| == |es|
    ensures forall i :: 0 <= i < |es| ==>
      items[i] == Item(TypeToString(es[i].presetType), es[i].oldName, es[i].newName, es[i].timestamp)
  {
    if es == [] then []
    else SavedItems(es[..|es| - 1]) + [SavedItem(es[|es| - 1])]
  }

  function SavedItem(e: RenameHistoryEntry): LoadItem
  {
    Item(TypeToString(e.presetType), e.oldName, e.newName, e.timestamp)
  }

  /** The entries whose type survives being written to the history file. */
  function PersistentEntries(es: seq<RenameHistoryEntry>): (r: seq<RenameHistoryEntry>)
    ensures forall i :: 0 <= i < |r| ==> r[i].presetType == Printer || r[i].presetType == Filament
  {
    if es == [] then []
    else
      var prefix := PersistentEntries(es[..|es| - 1]);
      var e := es[|es| - 1];
      if e.presetType == Printer || e.presetType == Filament then prefix + [e] else prefix
  }

  /** Saving and loading again keeps exactly the printer and filament entries:
      entries of any other (valid) type are written as "unknown" and dropped. */
  lemma {:induction false} SaveLoadRoundTrip(es: seq<RenameHistoryEntry>)
    requires AllWellFormed(es)
    ensures AcceptedEntries(SavedItems(es)) == PersistentEntries(es)
  {
    if es != [] {
      var init := es[..|es| - 1];
      assert SavedItems(es)[..|es| - 1] == SavedItems(init);
      SaveLoadRoundTrip(init);
      TypeRoundTrip(es[|es| - 1].presetType);
    }
  }

  // ---------------------------------------------------------------------
  // Resolution

  predicate Matches(e: RenameHistoryEntry, t: PresetType, name: string)
  {
    e.presetType == t && e.oldName == name
  }

  /** The index of the most recent entry renaming `name` within type `t`. */
  function LastMatch(es: seq<RenameHistoryEntry>, t: PresetType, name: string): (r: Option<nat>)
    ensures r.Some? ==>
      r.value < |es| && Matches(es[r.value], t, name) &&
      forall j :: r.value < j < |es| ==> !Matches(es[j], t, name)
    ensures r.None? ==> forall j :: 0 <= j < |es| ==> !Matches(es[j], t, name)
  {
    if es == [] then None
    else if Matches(es[|es| - 1], t, name) then Some(|es| - 1)
    else LastMatch(es[..|es| - 1], t, name)
  }

  /** One lookup step: the name `name` was last renamed to. */
  function Step(es: seq<RenameHistoryEntry>, t: PresetType, name: string): Option<string>
  {
    match LastMatch(es, t, name)
    case Some(i) => Some(es[i].newName)
    case None => None
  }

  /** Appending an entry overrides earlier renames of the same name and type,
      and leaves every other lookup as it was. */
  lemma StepAfterAppend(es: seq<RenameHistoryEntry>, e: RenameHistoryEntry, t: PresetType, name: string)
    ensures Step(es + [e], t, name) ==
      if Matches(e, t, name) then Some(e.newName) else Step(es, t, name)
  {
  }

  /** The name reached after `k` lookup steps, if every step found an entry. */
  function Follow(es: seq<RenameHistoryEntry>, t: PresetType, name: string, k: nat): Option<string>
    decreases k
  {
    if k == 0 then Some(name)
    else match Step(es, t, name)
      case None => None
      case Some(next) => Follow(es, t, next, k - 1)
  }

  /** The loop of `resolve` from a given state: `fuel` lookups remain, the names
      in `visited` were seen already. Yields the final `current` and `changed`. */
  function Walk(es: seq<RenameHistoryEntry>, t: PresetType, current: string,
                visited: set<string>, fuel: nat, changed: bool): (string, bool)
    decreases fuel
  {
    if fuel == 0 then (current, changed)
    else match Step(es, t, current)
      case None => (current, changed)
      case Some(next) =>
        if next in visited then (next, changed)
        else Walk(es, t, next, visited + {next}, fuel - 1, true)
  }

  lemma WalkStops(es: seq<RenameHistoryEntry>, t: PresetType, current: string,
                  visited: set<string>, fuel: nat, changed: bool)
    requires LastMatch(es, t, current).None?
    ensures Walk(es, t, current, visited, fuel, changed) == (current, changed)
  {
  }

  lemma WalkSteps(es: seq<RenameHistoryEntry>, t: PresetType, current: string, next: string,
                  visited: set<string>, fuel: nat, changed: bool)
    requires fuel > 0
    requires LastMatch(es, t, current).Some? && es[LastMatch(es, t, current).value].newName == next
    ensures Walk(es, t, current, visited, fuel, changed) ==
      if next in visited then (next, changed)
      else Walk(es, t, next, visited + {next}, fuel - 1, true)
  {
  }

  /** What `resolve` returns. */
  function Resolved(es: seq<RenameHistoryEntry>, t: PresetType, name: string): Option<string>
  {
    if t == Invalid || name == [] then None
    else
      var (current, changed) := Walk(es, t, name, {name}, MaxResolveDepth, false);
      if changed && current != name then Some(current) else None
  }

  lemma ResolvedFromWalk(es: seq<RenameHistoryEntry>, t: PresetType, name: string, current: string, changed: bool)
    requires t != Invalid && name != []
    requires Walk(es, t, name, {name}, MaxResolveDepth, false) == (current, changed)
    ensures Resolved(es, t, name) == if changed && current != name then Some(current) else None
  {
  }

  /** `resolve` never answers for an invalid type or an empty name. */
  lemma ResolveRejectsInvalid(es: seq<RenameHistoryEntry>, t: PresetType, name: string)
    requires t == Invalid || name == []
    ensures Resolved(es, t, name) == None
  {
  }

  /** A preset that was never renamed resolves to nothing. */
  lemma ResolveUnrenamed(es: seq<RenameHistoryEntry>, t: PresetType, name: string)
    requires Step(es, t, name) == None
    ensures Resolved(es, t, name) == None
  {
  }

  lemma {:induction false} FollowNonEmpty(es: seq<RenameHistoryEntry>, t: PresetType, name: string, k: nat)
    requires AllWellFormed(es) && 1 <= k
    requires Follow(es, t, name, k).Some?
    ensures Follow(es, t, name, k).value != []
    decreases k
  {
    var next := Step(es, t, name).value;
    if k > 1 {
      FollowNonEmpty(es, t, next, k - 1);
    }
  }

  lemma {:induction false} WalkSound(es: seq<RenameHistoryEntry>, t: PresetType, current: string,
                                     visited: set<string>, fuel: nat, changed: bool)
    ensures var (c, ch) := Walk(es, t, current, visited, fuel, changed);
      (!ch ==> !changed && (c == current || c in visited)) &&
      (c == current || exists k :: 1 <= k <= fuel && Follow(es, t, current, k) == Some(c))
    decreases fuel
  {
    if fuel > 0 && Step(es, t, current).Some? {
      var next := Step(es, t, current).value;
      assert Follow(es, t, current, 1) == Some(next);
      if next !in visited {
        WalkSound(es, t, next, visited + {next}, fuel - 1, true);
        var (c, ch) := Walk(es, t, next, visited + {next}, fuel - 1, true);
        if c == next {
          assert Follow(es, t, current, 1) == Some(c);
        } else {
          var k :| 1 <= k <= fuel - 1 && Follow(es, t, next, k) == Some(c);
          assert Follow(es, t, current, k + 1) == Some(c);
        }
      }
    }
  }

  /** A name `resolve` returns is a different, non-empty name reached from the
      input by following between 1 and 32 renames. */
  lemma ResolveSound(es: seq<RenameHistoryEntry>, t: PresetType, name: string)
    requires AllWellFormed(es)
    requires Resolved(es, t, name).Some?
    ensures var r := Resolved(es, t, name).value;
      r != name && r != [] &&
      exists k :: 1 <= k <= MaxResolveDepth && Follow(es, t, name, k) == Some(r)
  {
    WalkSound(es, t, name, {name}, MaxResolveDepth, false);
    var r := Resolved(es, t, name).value;
    var k :| 1 <= k <= MaxResolveDepth && Follow(es, t, name, k) == Some(r);
    FollowNonEmpty(es, t, name, k);
  }

  /** A chain of `k` renames through pairwise different names that ends at a
      name nobody renamed is followed to its end. */
  lemma {:induction false} WalkReachesEnd(es: seq<RenameHistoryEntry>, t: PresetType, current: string,
                                          visited: set<string>, fuel: nat, changed: bool, k: nat)
    requires k <= fuel
    requires forall j :: 0 <= j <= k ==> Follow(es, t, current, j).Some?
    requires forall i, j :: 0 <= i < j <= k ==> Follow(es, t, current, i) != Follow(es, t, current, j)
    requires forall j :: 1 <= j <= k ==> Follow(es, t, current, j).value !in visited
    requires Step(es, t, Follow(es, t, current, k).value) == None
    ensures Walk(es, t, current, visited, fuel, changed) == (Follow(es, t, current, k).value, changed || k > 0)
    decreases k
  {
    if k > 0 {
      assert Follow(es, t, current, 1).Some?;
      var next := Step(es, t, current).value;
      assert Follow(es, t, current, 1) == Some(next);
      forall j | 0 <= j <= k - 1 ensures Follow(es, t, next, j) == Follow(es, t, current, j + 1) {
      }
      WalkReachesEnd(es, t, next, visited + {next}, fuel - 1, true, k - 1);
    }
  }

  /** `resolve` returns the latest name: when the renames starting at `name`
      pass through pairwise different names and stop after `k` steps, 1 <= k <= 32,
      the result is the name they stop at. */
  lemma ResolveLatest(es: seq<RenameHistoryEntry>, t: PresetType, name: string, k: nat)
    requires t != Invalid && name != []
    requires 1 <= k <= MaxResolveDepth
    requires forall j :: 0 <= j <= k ==> Follow(es, t, name, j).Some?
    requires forall i, j :: 0 <= i < j <= k ==> Follow(es, t, name, i) != Follow(es, t, name, j)
    requires Step(es, t, Follow(es, t, name, k).value) == None
    ensures Resolved(es, t, name) == Follow(es, t, name, k)
  {
    forall j | 1 <= j <= k ensures Follow(es, t, name, j).value !in {name} {
      assert Follow(es, t, name, 0) == Some(name);
    }
    WalkReachesEnd(es, t, name, {name}, MaxResolveDepth, false, k);
  }

  /** A chain of pairwise different names whose `k`-th step returns to a name
      already seen (visited before the walk, or met on the way) stops there. */
  lemma {:induction false} WalkStopsAtCycle(es: seq<RenameHistoryEntry>, t: PresetType, current: string,
                                            visited: set<string>, fuel: nat, changed: bool, k: nat)
    requires 1 <= k <= fuel
    requires forall j :: 0 <= j <= k ==> Follow(es, t, current, j).Some?
    requires forall i, j :: 0 <= i < j < k ==> Follow(es, t, current, i) != Follow(es, t, current, j)
    requires forall j :: 1 <= j < k ==> Follow(es, t, current, j).value !in visited
    requires Follow(es, t, current, k).value in visited ||
      exists j :: 1 <= j < k && Follow(es, t, current, k) == Follow(es, t, current, j)
    ensures Walk(es, t, current, visited, fuel, changed) == (Follow(es, t, current, k).value, changed || k > 1)
    decreases k
  {
    assert Follow(es, t, current, 1).Some?;
    var next := Step(es, t, current).value;
    assert Follow(es, t, current, 1) == Some(next);
    if k > 1 {
      forall j | 0 <= j <= k - 1 ensures Follow(es, t, next, j) == Follow(es, t, current, j + 1) {
      }
      if Follow(es, t, current, k).value !in visited {
        var j :| 1 <= j < k && Follow(es, t, current, k) == Follow(es, t, current, j);
        if j == 1 {
          assert Follow(es, t, next, k - 1).value in visited + {next};
        } else {
          assert Follow(es, t, next, k - 1) == Follow(es, t, next, j - 1);
        }
      }
      assert Follow(es, t, next, k - 1).value in visited + {next} ||
        exists j :: 1 <= j < k - 1 && Follow(es, t, next, k - 1) == Follow(es, t, next, j);
      WalkStopsAtCycle(es, t, next, visited + {next}, fuel - 1, true, k - 1);
    }
  }

  /** A chain of renames that cycles back to the input name yields nothing. */
  lemma ResolveCycle(es: seq<RenameHistoryEntry>, t: PresetType, name: string, k: nat)
    requires 1 <= k <= MaxResolveDepth
    requires forall j :: 0 <= j <= k ==> Follow(es, t, name, j).Some?
    requires forall i, j :: 0 <= i < j < k ==> Follow(es, t, name, i) != Follow(es, t, name, j)
    requires Follow(es, t, name, k) == Some(name)
    ensures Resolved(es, t, name) == None
  {
    if t != Invalid && name != [] {
      forall j | 1 <= j < k ensures Follow(es, t, name, j).value !in {name} {
        assert Follow(es, t, name, 0) == Some(name);
      }
      WalkStopsAtCycle(es, t, name, {name}, MaxResolveDepth, false, k);
    }
  }

  /** A chain that enters a cycle not through the input: the renames from
      `name` pass through pairwise different names until the `k`-th returns to
      the `i`-th, 1 <= i < k <= 32. `resolve` returns that `i`-th name, the
      first name met twice. */
  lemma ResolveEntersCycle(es: seq<RenameHistoryEntry>, t: PresetType, name: string, i: nat, k: nat)
    requires t != Invalid && name != []
    requires 1 <= i < k <= MaxResolveDepth
    requires forall j :: 0 <= j <= k ==> Follow(es, t, name, j).Some?
    requires forall a, b :: 0 <= a < b < k ==> Follow(es, t, name, a) != Follow(es, t, name, b)
    requires Follow(es, t, name, k) == Follow(es, t, name, i)
    ensures Resolved(es, t, name) == Follow(es, t, name, i)
  {
    assert Follow(es, t, name, 0) == Some(name);
    forall j | 1 <= j < k ensures Follow(es, t, name, j).value !in {name} {
    }
    WalkStopsAtCycle(es, t, name, {name}, MaxResolveDepth, false, k);
  }

  /** A walk that can take its first step ends on a name reached by 1 to
      `fuel` renames. */
  lemma WalkMoves(es: seq<RenameHistoryEntry>, t: PresetType, current: string,
                  visited: set<string>, fuel: nat, changed: bool)
    requires fuel > 0 && Step(es, t, current).Some?
    ensures exists k :: (1 <= k <= fuel &&
      Follow(es, t, current, k) == Some(Walk(es, t, current, visited, fuel, changed).0))
  {
    var next := Step(es, t, current).value;
    assert Follow(es, t, current, 1) == Some(next);
    if next !in visited {
      WalkSound(es, t, next, visited + {next}, fuel - 1, true);
      var c := Walk(es, t, next, visited + {next}, fuel - 1, true).0;
      if c != next {
        var k :| 1 <= k <= fuel - 1 && Follow(es, t, next, k) == Some(c);
        assert Follow(es, t, current, k + 1) == Some(c);
      }
    }
  }

  /** `resolve` yields nothing only for an invalid type, an empty name, a name
      nobody renamed, or a name whose renames lead back to it within 32 steps. */
  lemma ResolveNoneCases(es: seq<RenameHistoryEntry>, t: PresetType, name: string)
    requires Resolved(es, t, name) == None
    ensures t == Invalid || name == [] || Step(es, t, name) == None ||
      exists k :: 1 <= k <= MaxResolveDepth && Follow(es, t, name, k) == Some(name)
  {
    if t != Invalid && name != [] && Step(es, t, name).Some? {
      WalkSound(es, t, name, {name}, MaxResolveDepth, false);
      WalkMoves(es, t, name, {name}, MaxResolveDepth, false);
    }
  }

  /** A chain of pairwise different, unvisited names is followed until the
      lookups run out. */
  lemma {:induction false} WalkExhausts(es: seq<RenameHistoryEntry>, t: PresetType, current: string,
                                        visited: set<string>, fuel: nat, changed: bool)
    requires forall j :: 0 <= j <= fuel ==> Follow(es, t, current, j).Some?
    requires forall i, j :: 0 <= i < j <= fuel ==> Follow(es, t, current, i) != Follow(es, t, current, j)
    requires forall j :: 1 <= j <= fuel ==> Follow(es, t, current, j).value !in visited
    ensures Walk(es, t, current, visited, fuel, changed) == (Follow(es, t, current, fuel).value, changed || fuel > 0)
    decreases fuel
  {
    if fuel > 0 {
      assert Follow(es, t, current, 1).Some?;
      var next := Step(es, t, current).value;
      assert Follow(es, t, current, 1) == Some(next);
      forall j | 0 <= j <= fuel - 1 ensures Follow(es, t, next, j) == Follow(es, t, current, j + 1) {
      }
      WalkExhausts(es, t, next, visited + {next}, fuel - 1, true);
    }
  }

  /** The depth limit: when the renames from `name` pass through 33 pairwise
      different names and the last of them was renamed again, `resolve` stops
      at the name reached after 32 renames, which is not the latest name. */
  lemma ResolveTruncates(es: seq<RenameHistoryEntry>, t: PresetType, name: string)
    requires t != Invalid && name != []
    requires forall j :: 0 <= j <= MaxResolveDepth ==> Follow(es, t, name, j).Some?
    requires forall i, j :: 0 <= i < j <= MaxResolveDepth ==> Follow(es, t, name, i) != Follow(es, t, name, j)
    requires Step(es, t, Follow(es, t, name, MaxResolveDepth).value).Some?
    ensures Resolved(es, t, name) == Follow(es, t, name, MaxResolveDepth)
    ensures Step(es, t, Resolved(es, t, name).value).Some?
  {
    forall j | 1 <= j <= MaxResolveDepth ensures Follow(es, t, name, j).value !in {name} {
      assert Follow(es, t, name, 0) == Some(name);
    }
    WalkExhausts(es, t, name, {name}, MaxResolveDepth, false);
  }

  // ---------------------------------------------------------------------
  // The history object

  class PresetRenameHistory {
    var entries: seq<RenameHistoryEntry>

    ghost predicate Valid()
      reads this
    {
      AllWellFormed(entries)
    }

    /** Construction loads the history file; `items` are its decoded entries
        (none when the file is missing or unreadable). */
    constructor (items: seq<LoadItem>)
      ensures Valid()
      ensures entries == AcceptedEntries(items)
    {
      entries := [];
      new;
      Load(items);
    }

    /** Replaces the stored entries by those the filter accepts. */
    method Load(items: seq<LoadItem>)
      modifies this
      ensures Valid()
      ensures entries == AcceptedEntries(items)
    {
      entries := [];
      for i := 0 to |items|
        invariant entries == AcceptedEntries(items[..i])
      {
        assert items[..i + 1][..i] == items[..i];
        var accepted := Decode(items[i]);
        if accepted.Some? {
          entries := entries + [accepted.value];
        }
      }
      assert items[..|items|] == items;
    }

    /** Records a rename stamped with `timestamp`, unless it is not a rename. */
    method AddEntry(t: PresetType, oldName: string, newName: string, timestamp: int)
      requires Valid()
      modifies this
      ensures Valid()
      ensures t == Invalid || oldName == [] || newName == [] || oldName == newName ==>
        entries == old(entries)
      ensures t != Invalid && oldName != [] && newName != [] && oldName != newName ==>
        entries == old(entries) + [RenameHistoryEntry(t, oldName, newName, timestamp)]
    {
      if t == Invalid || oldName == [] || newName == [] || oldName == newName {
        return;
      }
      var entry := RenameHistoryEntry(t, oldName, newName, timestamp);
      entries := entries + [entry];
    }

    /** The stored entries, read-only. */
    function Entries(): (es: seq<RenameHistoryEntry>)
      reads this
      requires Valid()
      ensures AllWellFormed(es)
    {
      entries
    }

    /** The reverse search of `resolve`: the most recent entry renaming `name`. */
    method FindLastRename(t: PresetType, name: string) returns (r: Option<nat>)
      ensures r == LastMatch(entries, t, name)
    {
      var i := |entries|;
      while i > 0
        invariant 0 <= i <= |entries|
        invariant forall j :: i <= j < |entries| ==> !Matches(entries[j], t, name)
      {
        if Matches(entries[i - 1], t, name) {
          r := Some(i - 1);
          assert r == LastMatch(entries, t, name);
          return;
        }
        i := i - 1;
      }
      r := None;
    }

    /** One pass of the lookup loop of `resolve`: look up `current` and either
        stop (no rename, or a name already visited) or move on to the new name. */
    method ResolveStep(t: PresetType, current: string, visited: set<string>, ghost fuel: nat, changed: bool)
      returns (stop: bool, current': string, visited': set<string>, changed': bool)
      requires fuel > 0
      ensures stop ==> Walk(entries, t, current, visited, fuel, changed) == (current', changed')
      ensures !stop ==> Walk(entries, t, current, visited, fuel, changed) ==
                        Walk(entries, t, current', visited', fuel - 1, changed')
    {
      var it := FindLastRename(t, current);
      if it.None? {
        WalkStops(entries, t, current, visited, fuel, changed);
        return true, current, visited, changed;
      }
      var next := entries[it.value].newName;
      WalkSteps(entries, t, current, next, visited, fuel, changed);
      if next in visited {
        return true, next, visited, changed;
      }
      return false, next, visited + {next}, true;
    }

    /** The latest name of preset `name` of type `t`, if it was renamed. */
    method Resolve(t: PresetType, name: string) returns (r: Option<string>)
      ensures r == Resolved(entries, t, name)
    {
      if t == Invalid || name == [] {
        return None;
      }
      var current := name;
      var changed := false;
      var visited := {name};
      ghost var outcome := Walk(entries, t, name, {name}, MaxResolveDepth, false);
      ghost var fuel: nat := MaxResolveDepth;
      var depth := 0;
      while depth < MaxResolveDepth
        invariant 0 <= depth <= MaxResolveDepth && fuel == MaxResolveDepth - depth
        invariant Walk(entries, t, current, visited, fuel, changed) == outcome
      {
        var stop;
        stop, current, visited, changed := ResolveStep(t, current, visited, fuel, changed);
        if stop {
          assert (current, changed) == outcome;
          break;
        }
        depth := depth + 1;
        fuel := fuel - 1;
      }
      assert fuel == 0 ==> Walk(entries, t, current, visited, fuel, changed) == (current, changed);
      assert (current, changed) == outcome;
      ResolvedFromWalk(entries, t, name, current, changed);
      if changed && current != name {
        r := Some(current);
      } else {
        r := None;
      }
    }
  }
}

# Event Manager window: verified model of its data logic

The KAI Event System ships a Unity editor window, `EventManagerEditor`, for browsing a
`GameEventManager` asset. The asset holds scene handles, an events dictionary, listeners
and references. Most of the window is IMGUI drawing. Embedded in it is a small amount of
sequential data logic, and this project models that logic and proves properties of it:

- **Scene-list refresh.** The window rebuilds the sorted, duplicate-free `SceneNames` set from
  the non-null scene handles. It copies the set into `DropdownNames` and resolves each name to
  the first handle that carries it. A debounce gate (count mismatch, or `Counter >= CoolDown`)
  decides when this happens.
- **Scene-mask decoding.** A 32-bit `MaskField` value over `DropdownNames` becomes the ordered
  list of selected scene names.
- **The four search filters.** Each is a case-insensitive substring match. They run over the
  scene names (a sorted set), the events (a dictionary keyed by name), the listeners and the
  references.
- **Null-listener pruning.** An event's listener list is pruned in place with `RemoveAt(i); i--`.
- **Deferred commands.** Picks and deletions are queued while drawing. `OnInspectorUpdate`
  applies them once and then clears them.
- **Reset rules.** Switching the search type or the tab resets the search state.

Modules:

- `Entities`: the asset records, `Option`, and `Outcome`. `Outcome` is completion, or a
  null-reference exception that the source does not guard against.
- `Names`: the ordinal string order, and `SortedSet<string>.Add` on a strictly sorted sequence.
- `Scenes`: the name rebuild and first-match resolution.
- `Mask`: mask decoding with C#'s `1 << i` on a 32-bit int.
- `Search`: ASCII lower-casing, `Contains`, and the filters.
- `Listeners`: the `CustomEvent` listener list and the prune loop.
- `Refresh`: the gate and the never-reset counter.
- `Window`: the objects the window edits, as classes. These are `GameEventManager`,
  `EventCollection` and `EventManagerWindow`, whose methods update their fields in place.

Loops in the source are methods with loop invariants. Each is specified against a pure
function, and that function's properties are proved as lemmas.

Three behaviours of the code differ from what a reader might expect, and the model keeps them:

- `Counter` is never reset. Once it reaches `CoolDown`, the gate is open on every later frame
  (`Refresh.GateStaysOpen`).
- A picked scene is appended to `_Scenes` even when it is already present
  (`Window.ScenesAfterCommands`).
- The mask 0 selects no scene, rather than all scenes (`Mask.SelectedNone`).

## Model

| member | source | states |
|---|---|---|
| Names.SortedInsert | Assets/Scripts/Editor/EventManagerEditor.cs:215 | `SortedSet.Add`: the result is strictly sorted, its members are the old members plus the new name, and it grows by one exactly when the name was absent |
| Names.SortedUnique | Assets/Scripts/Editor/EventManagerEditor.cs:53 | two strictly sorted sequences with the same members are equal, so a sorted set is determined by its member set |
| Scenes.SortedNames | Assets/Scripts/Editor/EventManagerEditor.cs:206-216 | the rebuilt set is strictly sorted and holds exactly the names that some non-null handle carries |
| Scenes.SortedNamesCount | Assets/Scripts/Editor/EventManagerEditor.cs:206-216 | the rebuilt set is never larger than the handle list, and equals it in size exactly when no handle is null and no two share a name |
| Scenes.CollectSceneNames | Assets/Scripts/Editor/EventManagerEditor.cs:206-216 | the loop that skips null handles and adds each name yields that sorted set of names |
| Scenes.FirstWithName | Assets/Scripts/Editor/EventManagerEditor.cs:226-233 | the first-match search finds nothing exactly when no handle carries the name, and otherwise finds a handle with that name |
| Scenes.FirstWithNameIsFirst | Assets/Scripts/Editor/EventManagerEditor.cs:226-233 | the handle found sits at some index of the list, and no earlier handle carries the name (the `break` at the first match) |
| Scenes.FirstMatches | Assets/Scripts/Editor/EventManagerEditor.cs:223-235 | every entry of `scenes` carries one of the names and is exactly the first handle carrying its name, and every name that some handle carries has its first handle in `scenes`; for sorted names there is at most one entry per name (`Scenes.FirstMatchesSorted`) |
| Scenes.FirstMatchesSorted | Assets/Scripts/Editor/EventManagerEditor.cs:220-235 | for a sorted set of names, the entries of `scenes` follow the names' order, so no name has two entries |
| Scenes.FirstMatchesMembers | Assets/Scripts/Editor/EventManagerEditor.cs:223-235 | a handle is in `scenes` exactly when it is the first handle of one of the names |
| Scenes.FirstMatchesResolves | Assets/Scripts/Editor/EventManagerEditor.cs:220-235 | for sorted names, `scenes` resolves them (`Scenes.ResolvesFirst`): each entry is the first handle of one of the names, every carried name has its first handle there, and the entries follow the names' order |
| Scenes.FirstMatchesParallel | Assets/Scripts/Editor/EventManagerEditor.cs:220-235 | when every name is carried by some handle, `scenes` is parallel to the names and entry i is the first handle named `DropdownNames[i]` |
| Scenes.RebuiltScenesParallel | Assets/Scripts/Editor/EventManagerEditor.cs:204-235 | after a rebuild from the handles, `scenes` has the length of `DropdownNames`, the same names in the same order, and each entry is the lowest-index handle with its name |
| Scenes.ResolveScenes | Assets/Scripts/Editor/EventManagerEditor.cs:223-235 | the nested loop with `break` computes the first match of every name in order |
| Mask.ShiftCount | Assets/Scripts/Editor/EventManagerEditor.cs:481 | a C# shift count on a 32-bit int is below 32 |
| Mask.Bit | Assets/Scripts/Editor/EventManagerEditor.cs:481-483 | the loop's test `(filter & layer) != 0` with `layer = 1 << k`; the decoding loop applies it at `Mask.ShiftCount(i)` |
| Mask.Selected | Assets/Scripts/Editor/EventManagerEditor.cs:477-487 | the decoded list is no longer than `DropdownNames` |
| Mask.SelectedMembers | Assets/Scripts/Editor/EventManagerEditor.cs:477-487 | a name is selected exactly when it sits at a position i whose bit `i % 32` is set |
| Mask.SelectedIffBit | Assets/Scripts/Editor/EventManagerEditor.cs:477-487 | for at most 32 distinct names, name i is selected exactly when bit i of the mask is set |
| Mask.SelectedNone | Assets/Scripts/Editor/EventManagerEditor.cs:477-487 | the mask 0 selects no scene |
| Mask.SelectedEverything | Assets/Scripts/Editor/EventManagerEditor.cs:477-487 | the all-ones mask (Everything, -1) selects every name, in order |
| Mask.SelectedSorted | Assets/Scripts/Editor/EventManagerEditor.cs:477-487 | decoding preserves the order of `DropdownNames`: sorted names decode to a sorted list |
| Mask.DecodeMask | Assets/Scripts/Editor/EventManagerEditor.cs:477-487 | the selected-scenes loop computes `Selected` of the names and the mask |
| Search.LowerChar | Assets/Scripts/Editor/EventManagerEditor.cs:1086 | lower-casing one character never yields an upper-case letter; an upper-case letter keeps its place in the alphabet, and any other character is unchanged |
| Search.Lower | Assets/Scripts/Editor/EventManagerEditor.cs:1086 | `ToLower` keeps the length, leaves no upper-case character, and returns a string without upper case unchanged |
| Search.LowerIdempotent | Assets/Scripts/Editor/EventManagerEditor.cs:1086 | lower-casing twice equals lower-casing once |
| Search.Contains | Assets/Scripts/Editor/EventManagerEditor.cs:1086 | `string.Contains`: a contained query is never longer than the string (what "contained" means is `Search.ContainsAt`) |
| Search.Matches | Assets/Scripts/Editor/EventManagerEditor.cs:1086 | `name.ToLower().Contains(query.ToLower())`, shared by the filters at 1086, 1110, 1144 and 1180; a matching query is never longer than the name |
| Search.MatchesAt | Assets/Scripts/Editor/EventManagerEditor.cs:1086 | a name matches exactly when the lower-cased query occurs at some position of the lower-cased name |
| Search.MatchesIgnoresCase | Assets/Scripts/Editor/EventManagerEditor.cs:1086 | matching is case-insensitive: lower-casing the name or the query first does not change the verdict |
| Search.EmptyQueryMatches | Assets/Scripts/Editor/EventManagerEditor.cs:1086 | every name contains the empty query |
| Search.ContainsAt | Assets/Scripts/Editor/EventManagerEditor.cs:1086 | `Contains` holds exactly when the query occurs at some position of the name |
| Search.Keep | Assets/Scripts/Editor/EventManagerEditor.cs:1140-1150 | the filtered list is no longer than the input, and every kept item is from the input and matches |
| Search.KeepComplete | Assets/Scripts/Editor/EventManagerEditor.cs:1140-1150 | every matching item of the input is kept |
| Search.KeepAppend | Assets/Scripts/Editor/EventManagerEditor.cs:1140-1150 | filtering distributes over concatenation, so kept items keep their relative order |
| Search.KeepEmptyQuery | Assets/Scripts/Editor/EventManagerEditor.cs:1176-1186 | the empty query keeps every item |
| Search.KeepIdempotent | Assets/Scripts/Editor/EventManagerEditor.cs:1176-1186 | filtering twice with one query equals filtering once |
| Search.KeepIgnoresQueryCase | Assets/Scripts/Editor/EventManagerEditor.cs:1140-1150 | the listener and reference filters keep the same items whatever the case of the query |
| Search.FilterByName | Assets/Scripts/Editor/EventManagerEditor.cs:1140-1150 | the listener loop (and the reference loop at 1176-1186) yields the filtered list: an item is in it exactly when it is in the input and its name matches |
| Search.EventsMatching | Assets/Scripts/Editor/EventManagerEditor.cs:1107-1116 | the filtered dictionary's keys are exactly the input keys that match, each with its original value |
| Search.EventsMatchingEmptyQuery | Assets/Scripts/Editor/EventManagerEditor.cs:1107-1116 | the empty query keeps the whole events dictionary |
| Search.EventsMatchingIdempotent | Assets/Scripts/Editor/EventManagerEditor.cs:1107-1116 | filtering the events dictionary twice with one query equals filtering once |
| Search.EventsMatchingIgnoresQueryCase | Assets/Scripts/Editor/EventManagerEditor.cs:1107-1116 | the events filter keeps the same entries whatever the case of the query |
| Search.FilterEvents | Assets/Scripts/Editor/EventManagerEditor.cs:1107-1116 | the new dictionary's keys are exactly the input keys that match, each mapped to its original value |
| Search.FilterSceneNames | Assets/Scripts/Editor/EventManagerEditor.cs:1083-1090 | the new sorted set is sorted and holds exactly the names of the old set that match |
| Search.CopySortedSet | Assets/Scripts/Editor/EventManagerEditor.cs:1091-1096 | re-adding a sorted set element by element yields the same set |
| Listeners.WithoutNulls | Assets/Scripts/Editor/EventManagerEditor.cs:843-850 | the pruned list is no longer than the input, and holds only non-null entries of the input |
| Listeners.WithoutNullsAppend | Assets/Scripts/Editor/EventManagerEditor.cs:843-850 | pruning distributes over concatenation, so survivors keep their relative order |
| Listeners.WithoutNullsNoNulls | Assets/Scripts/Editor/EventManagerEditor.cs:843-850 | a list without nulls is left as it is |
| Listeners.WithoutNullsKeeps | Assets/Scripts/Editor/EventManagerEditor.cs:843-850 | every non-null entry survives |
| Listeners.WithoutNullsIdempotent | Assets/Scripts/Editor/EventManagerEditor.cs:843-850 | pruning twice equals pruning once |
| Listeners.RemoveNullAt | Assets/Scripts/Editor/EventManagerEditor.cs:845-848 | `RemoveAt(i)` on a null entry keeps the non-null entries and the prefix before i |
| Listeners.PruneNullListeners | Assets/Scripts/Editor/EventManagerEditor.cs:843-850 | after the in-place `RemoveAt(i); i--` loop, the list is the old list without its nulls, in order, and holds no null |
| Refresh.GateOpen | Assets/Scripts/Editor/EventManagerEditor.cs:202 | the rebuild condition: counts differ, or `Counter` has reached `CoolDown`; its behaviour over frames is `Refresh.GateStaysOpen` and `Refresh.OneTickPerFrame` |
| Refresh.CounterAfter | Assets/Scripts/Editor/EventManagerEditor.cs:238 | `Counter` after a run of frames, each adding its frame time; its properties are `Refresh.CounterNeverDecreases` and `Refresh.CounterAfterAppend` |
| Refresh.CounterNeverDecreases | Assets/Scripts/Editor/EventManagerEditor.cs:238 | `Counter` never decreases over any run of frames |
| Refresh.CounterAfterAppend | Assets/Scripts/Editor/EventManagerEditor.cs:238 | running two stretches of frames one after the other is running their concatenation |
| Refresh.GateStaysOpen | Assets/Scripts/Editor/EventManagerEditor.cs:202-238 | once `Counter` has reached `CoolDown`, the gate is open on every later frame, whatever the counts |
| Refresh.OneTickPerFrame | Assets/Scripts/Editor/EventManagerEditor.cs:202-238 | with equal counts and one tick per frame from 0, the gate is open exactly when at least `CoolDown` frames have passed |
| Window.GateAfterRebuild | Assets/Scripts/Editor/EventManagerEditor.cs:202-216 | after a rebuild, the gate is open exactly when a handle is null or two share a name, or the cooldown has been reached |
| Window.SearchThrows | Assets/Scripts/Editor/EventManagerEditor.cs:1059-1196 | the unguarded dereferences of `DoSearchField`: the manager at 1073 and 1108, `DropdownNames` at 1125 and 1161; used as the exact error condition of `Window.EventManagerWindow.DoSearchField` |
| Window.ScenesAfterCommands | Assets/Scripts/Editor/EventManagerEditor.cs:124-148 | with no deletion queued, a picked scene is appended at the end of `_Scenes` and nothing else changes; with nothing queued the list is unchanged |
| Window.EventManagerWindow.constructor | Assets/Scripts/Editor/EventManagerEditor.cs:47-88 | the window opens on tab and search type 0: no manager, empty names, no dropdown, counter 0, empty query, nothing pending |
| Window.EventManagerWindow.SelectManager | Assets/Scripts/Editor/EventManagerEditor.cs:180 | the manager field holds the chosen manager |
| Window.EventManagerWindow.RebuildSceneList | Assets/Scripts/Editor/EventManagerEditor.cs:204-235 | with an empty query on the scene search, `SceneNames` is rebuilt from the handles, and is left as it is otherwise; `DropdownNames` is its copy; `scenes` resolves `SceneNames` (`Scenes.ResolvesFirst`): exactly the first handles of the carried names, in sorted name order; after a rebuild `scenes` is parallel to the names |
| Window.EventManagerWindow.CollectForSceneSearch | Assets/Scripts/Editor/EventManagerEditor.cs:204-216 | with an empty query on the scene search, `SceneNames` becomes the sorted set of the handles' names (exactly the names some handle carries), and otherwise stays as it was |
| Window.EventManagerWindow.ResolveDropdown | Assets/Scripts/Editor/EventManagerEditor.cs:220-235 | `DropdownNames` becomes a copy of `SceneNames`, and `scenes` resolves it (`Scenes.ResolvesFirst`): each entry is the first handle of one of the names, every name some handle carries has its first handle there, in name order and at most once per name |
| Window.EventManagerWindow.RefreshSceneList | Assets/Scripts/Editor/EventManagerEditor.cs:198-238 | without a manager nothing changes; with one, the lists are rebuilt exactly when the gate is open, `scenes` then resolves `SceneNames` (`Scenes.ResolvesFirst`), and `Counter` grows by the frame time every frame |
| Window.EventManagerWindow.SelectSceneMask | Assets/Scripts/Editor/EventManagerEditor.cs:242-249 | `CurrentScene` takes the mask value only for the listener and reference searches with a manager |
| Window.EventManagerWindow.SelectSearchType | Assets/Scripts/Editor/EventManagerEditor.cs:257-267 | a different search type clears the query and both masks; the same one changes nothing else |
| Window.EventManagerWindow.SelectTab | Assets/Scripts/Editor/EventManagerEditor.cs:292-299 | a different tab clears the query and hides the details panel; the same tab changes nothing |
| Window.EventManagerWindow.SearchSceneNames | Assets/Scripts/Editor/EventManagerEditor.cs:1069-1096 | `SceneNames` becomes the rebuilt names that match, and throws (leaving it empty) exactly when there is no manager |
| Window.EventManagerWindow.SearchEventNames | Assets/Scripts/Editor/EventManagerEditor.cs:1100-1118 | `Events` becomes the reloaded dictionary restricted to the matching keys, and throws exactly when there is no manager |
| Window.EventManagerWindow.SearchInScenes | Assets/Scripts/Editor/EventManagerEditor.cs:1119-1190 | `filter` takes `CurrentScene`; it throws exactly when `DropdownNames` was never built; with a manager, `Listeners` (or `References`) becomes the matching items found in the selected scenes |
| Window.EventManagerWindow.DoSearchField | Assets/Scripts/Editor/EventManagerEditor.cs:1059-1196 | nothing changes for an unchanged query; otherwise the search of `Window.EventManagerWindow.SearchRan` runs; the query is stored exactly when no null dereference aborts the pass |
| Window.EventManagerWindow.RunSearch | Assets/Scripts/Editor/EventManagerEditor.cs:1059-1192 | establishes `Window.EventManagerWindow.SearchRan` and keeps `SceneNames` sorted |
| Window.EventManagerWindow.SearchRan | Assets/Scripts/Editor/EventManagerEditor.cs:1059-1192 | for a changed query: the tab follows the search type; exactly that type's collection is rebuilt and filtered, the others keep their values, and the pass aborts exactly on the null dereferences of `Window.SearchThrows` |
| Window.EventManagerWindow.FindAllEventsClicked | Assets/Scripts/Editor/EventManagerEditor.cs:414-421 | with a manager, the query is cleared and `Events` is reloaded; without one nothing changes |
| Window.EventManagerWindow.ListenersToolbar | Assets/Scripts/Editor/EventManagerEditor.cs:473-495 | with a manager, `filter` takes the picked mask and the button reloads `Listeners` from the selected scenes; it throws exactly when `DropdownNames` is missing |
| Window.EventManagerWindow.ReferencesToolbar | Assets/Scripts/Editor/EventManagerEditor.cs:549-573 | the same for `References`, and the button also clears the query |
| Window.EventManagerWindow.QueueSceneDeletion | Assets/Scripts/Editor/EventManagerEditor.cs:358-361 | the scene of the clicked row is queued for removal |
| Window.EventManagerWindow.PickScene | Assets/Scripts/Editor/EventManagerEditor.cs:626-629 | the closed scene picker's object (possibly none) is queued for adding |
| Window.EventManagerWindow.QueueEventDeletion | Assets/Scripts/Editor/EventManagerEditor.cs:774-789 | a non-null entry of a collection is queued for removal together with that collection |
| Window.EventManagerWindow.PickEvent | Assets/Scripts/Editor/EventManagerEditor.cs:813-817 | the event picker's object is queued for adding |
| Window.EventManagerWindow.CloseEventPicker | Assets/Scripts/Editor/EventManagerEditor.cs:818-821 | the shown collection becomes the target of the queued event |
| Window.EventManagerWindow.OnInspectorUpdate | Assets/Scripts/Editor/EventManagerEditor.cs:116-150 | the event commands (`Window.EventManagerWindow.EventCommandsApplied`) and the scene commands (`Window.EventManagerWindow.SceneCommandsApplied`) take effect; afterwards no command is armed, and with nothing armed nothing changes |
| Window.EventManagerWindow.ApplyEventCommands | Assets/Scripts/Editor/EventManagerEditor.cs:118-140 | establishes `Window.EventManagerWindow.EventCommandsApplied`; afterwards neither event command is armed |
| Window.EventManagerWindow.ApplySceneCommands | Assets/Scripts/Editor/EventManagerEditor.cs:125-149 | establishes `Window.EventManagerWindow.SceneCommandsApplied` |
| Window.EventManagerWindow.EventCommandsApplied | Assets/Scripts/Editor/EventManagerEditor.cs:118-140 | each event command runs exactly when all its operands are set, and then clears them; when the pick and the deletion target one collection, the removal applies to the list with the pick added; a collection without a command keeps its list |
| Window.EventManagerWindow.SceneCommandsApplied | Assets/Scripts/Editor/EventManagerEditor.cs:125-149 | with a manager, the picked scene is appended, then the queued one is removed, and both are cleared; without a manager both wait |

## Left out

- All IMGUI layout is left out: the `Rect`, width and height arithmetic, scroll views, styles and `Repaint`. It is float-valued presentation code.
- `Resizer` and `ProcessEvents` are left out. They are mouse-driven ratio clamping on floats.
- Pickers are left out: their control IDs, `ObjectSelectorUpdated`/`ObjectSelectorClosed` dispatch, `ShowObjectPicker`, `GetControlID` and `hotControl`. The events they react to become the calls `PickScene`, `PickEvent` and `CloseEventPicker`.
- `Debug.Log`, the reflection write `Fields[i].SetValue` and `UnityEvent.GetPersistentEventCount` are left out. They are logging, runtime introspection and a library call.
- The right-panel statistics and details drawing is left out, apart from the listener prune.
- The `GameEventManager` source is not part of this model. Its methods are not shown: `FindAllEvents`, `FindAllListeners`, `FindAllReferences` and `RemoveScene`. So is `GameEventCollection.RemoveEvent`. The model takes what they compute as values, `Finds`, `removeEvent` and `removeScene`, and leaves out any side effect they have beyond it.
- Unity's "destroyed object compares equal to null" is modelled as plain null (`None` / `null`).
- Names.SortedInsert: `SortedSet<string>` uses the culture-sensitive default comparer. The model uses ordinal lexicographic order on characters, because culture collation rules cannot be stated here.
- Search.Lower: `ToLower` is culture-sensitive. The model lower-cases ASCII `A`-`Z` only.
- Refresh.CounterAfter: `Counter` and `Time.deltaTime` are floats. The model uses a natural number of ticks and a whole-number `CoolDown` of 4. Float rounding is not modelled.
- Search.FilterEvents: the order in which a `Dictionary` is enumerated is not modelled. The result is a map, and insertion order has no meaning there.
- Window.EventManagerWindow.SearchInScenes: the listeners and references returned by the manager are taken as non-null. A null entry would throw at `.name` or `.Reference.name`, and that case is not modelled.
- Window.EventManagerWindow.ListenersToolbar: what `MaskField` itself does with a null `DropdownNames` is not known here. The model assigns `filter` and then raises the null dereference in the decoding loop.
- Window.EventManagerWindow.ReferencesToolbar: the same holds for `References`.
- Window.EventManagerWindow.OnInspectorUpdate: the two event commands run before the two scene commands, while the source interleaves them. The end state is the same only under the abstraction above: `removeEvent` and `removeScene` change nothing but the list they are given. Side effects of the real `RemoveEvent` and `RemoveScene` on other objects could make the order matter, and the model does not capture that.
- Window.EventManagerWindow.SelectSceneMask: `MaskField(CurrentScene, DropdownNames)` can run while `DropdownNames` is still null. That happens with a manager whose `_Scenes` is empty, during the first `CoolDown` ticks. The model assumes the call does not throw and only assigns `CurrentScene`.
- Mask.Bit: the decoding loop calls this test directly instead of first storing `1 << i` in a `layer` variable. The model has no lemma that restates the test as a shift of the mask; what it means for the decoding is `Mask.SelectedMembers` and `Mask.SelectedIffBit`.
- Editing a row's object field is left out: `scenes[i]`, `e.Value.Event`, `eventsCol.Events[i]` and the listener fields. It is an `ObjectField` assignment driven by the editor.
- Composition of one `OnGUI` frame is not modelled as a single method. Its steps are the separate methods, called in source order by the editor.

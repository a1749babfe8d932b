/** The Event Manager window's non-drawing state: the scene list it derives
    from the selected manager, the search box and its four filters, the
    scene-mask toolbars, the tab and search-type switches, and the picks and
    deletions it queues during drawing and applies on the next inspector tick. */
module Window {
  import opened Entities
  import opened Names
  import opened Scenes
  import opened Mask
  import opened Search
  import opened Refresh

  /** The `GameEventManager` asset: the four collections the window reads and
      replaces. Its own methods are not part of this model; what they compute
      reaches the window as `Finds` and as the removal functions below. */
  class GameEventManager {
    var scenes: seq<Option<SceneAsset>>
    var events: map<string, EventData>
    var listeners: seq<Listener>
    var references: seq<EventReference>

    constructor (scenes: seq<Option<SceneAsset>>)
      ensures this.scenes == scenes && events == map[] && listeners == [] && references == []
    {
      this.scenes := scenes;
      events := map[];
      listeners := [];
      references := [];
    }
  }

  /** A `GameEventCollection` asset and its `Events` list (entries may be null). */
  class EventCollection {
    var events: seq<Option<GameEvent>>

    constructor (events: seq<Option<GameEvent>>)
      ensures this.events == events
    {
      this.events := events;
    }
  }

  /** What the manager's `FindAllEvents`, `FindAllListeners(scenes)` and
      `FindAllReferences(scenes)` produce for the current project. */
  datatype Finds = Finds(
    allEvents: map<string, EventData>,
    listenersIn: seq<string> -> seq<Listener>,
    referencesIn: seq<string> -> seq<EventReference>)

  /** The search types of the radio grid, which are also the tab indices. */
  const SearchScenes: nat := 0
  const SearchEvents: nat := 1
  const SearchListeners: nat := 2
  const SearchReferences: nat := 3

  /** `DoSearchField` dereferences something null: the manager for the scene
      and event searches, `DropdownNames` (built only by a refresh) for the
      listener and reference searches. */
  predicate SearchThrows(searchType: nat, result: string, hasManager: bool, hasDropdown: bool) {
    (searchType == SearchScenes && |result| > 0 && !hasManager) ||
    (searchType == SearchEvents && !hasManager) ||
    ((searchType == SearchListeners || searchType == SearchReferences) && !hasDropdown)
  }

  class EventManagerWindow {
    var manager: GameEventManager?
    var currentTab: nat
    var currentSearchType: nat
    var sceneNames: seq<string>
    var dropdownNames: Option<seq<string>>
    var counter: nat
    var currentScene: bv32
    var filter: bv32
    var searchString: string
    var showRightPanel: bool
    var scenes: seq<SceneAsset>
    var pickedEvent: Option<GameEvent>
    var gec: EventCollection?
    var toBeDeletedScene: Option<SceneAsset>
    var toBeDeletedEvent: Option<GameEvent>
    var collectionToDeleteFrom: EventCollection?
    var pickedScene: Option<SceneAsset>

    /** `SceneNames` is a sorted set, and so is every `DropdownNames` copied from it. */
    ghost predicate Valid()
      reads this
    {
      StrictlySorted(sceneNames) &&
      (dropdownNames.Some? ==> StrictlySorted(dropdownNames.value))
    }

    /** A freshly opened window: no manager, nothing searched, nothing pending. */
    constructor ()
      ensures Valid()
      ensures manager == null && currentTab == 0 && currentSearchType == 0
      ensures sceneNames == [] && dropdownNames.None? && counter == 0
      ensures currentScene == 0 && filter == 0 && searchString == "" && !showRightPanel
      ensures scenes == [] && pickedEvent.None? && gec == null && pickedScene.None?
      ensures toBeDeletedScene.None? && toBeDeletedEvent.None? && collectionToDeleteFrom == null
    {
      manager := null;
      currentTab := 0;
      currentSearchType := 0;
      sceneNames := [];
      dropdownNames := None;
      counter := 0;
      currentScene := 0;
      filter := 0;
      searchString := "";
      showRightPanel := false;
      scenes := [];
      pickedEvent := None;
      gec := null;
      toBeDeletedScene := None;
      toBeDeletedEvent := None;
      collectionToDeleteFrom := null;
      pickedScene := None;
    }

    /** The manager object field at the top of the window. */
    method SelectManager(m: GameEventManager?)
      modifies this`manager
      ensures manager == m
    {
      manager := m;
    }

    /** The copy of `SceneNames` into `DropdownNames` and the resolution of each
        name to its first handle, in `DrawSearchSection`. */
    method ResolveDropdown()
      requires StrictlySorted(sceneNames) && manager != null
      modifies this`dropdownNames, this`scenes
      ensures dropdownNames == Some(sceneNames)
      ensures scenes == FirstMatches(sceneNames, manager.scenes)
      ensures ResolvesFirst(sceneNames, manager.scenes, scenes)
    {
      var copy := CopySortedSet(sceneNames);
      dropdownNames := Some(copy);
      scenes := ResolveScenes(copy, manager.scenes);
      FirstMatchesResolves(copy, manager.scenes);
    }

    /** The rebuild in `DrawSearchSection`, run when the gate is open: with an
        empty query on the scene search, `SceneNames` is rebuilt from the
        handles; then it is copied into `DropdownNames` and each name is
        resolved to its first handle. */
    method RebuildSceneList()
      requires Valid() && manager != null
      modifies this`sceneNames, this`dropdownNames, this`scenes
      ensures Valid()
      ensures sceneNames == if searchString == "" && currentSearchType == SearchScenes
        then SortedNames(manager.scenes) else old(sceneNames)
      ensures dropdownNames == Some(sceneNames)
      ensures scenes == FirstMatches(sceneNames, manager.scenes)
      ensures ResolvesFirst(sceneNames, manager.scenes, scenes)
      ensures searchString == "" && currentSearchType == SearchScenes ==>
        ((forall n :: n in sceneNames <==> HasName(manager.scenes, n)) &&
         |scenes| == |sceneNames| &&
         (forall i :: 0 <= i < |scenes| ==> Some(scenes[i]) == FirstWithName(manager.scenes, sceneNames[i])))
    {
      CollectForSceneSearch();
      ResolveDropdown();
      if searchString == "" && currentSearchType == SearchScenes {
        FirstMatchesParallel(sceneNames, manager.scenes);
      }
    }

    /** The first step of the rebuild in `DrawSearchSection`: with an empty query
        on the scene search, `SceneNames` becomes the sorted set of the handles' names. */
    method CollectForSceneSearch()
      requires Valid() && manager != null
      modifies this`sceneNames
      ensures Valid()
      ensures sceneNames == if searchString == "" && currentSearchType == SearchScenes
        then SortedNames(manager.scenes) else old(sceneNames)
      ensures searchString == "" && currentSearchType == SearchScenes ==>
        forall n :: n in sceneNames <==> HasName(manager.scenes, n)
    {
      if |searchString| == 0 && currentSearchType == SearchScenes {
        sceneNames := CollectSceneNames(manager.scenes);
      }
    }

    /** `DrawSearchSection`: with a manager, rebuild the scene list when the gate is
        open, then advance the counter by the frame time `dt`. */
    method RefreshSceneList(dt: nat)
      requires Valid()
      modifies this`sceneNames, this`dropdownNames, this`scenes, this`counter
      ensures Valid()
      ensures manager == null ==>
        (sceneNames == old(sceneNames) && dropdownNames == old(dropdownNames) &&
         scenes == old(scenes) && counter == old(counter))
      ensures manager != null ==> counter == old(counter) + dt
      ensures manager != null && !GateOpen(|old(sceneNames)|, |manager.scenes|, old(counter)) ==>
        (sceneNames == old(sceneNames) && dropdownNames == old(dropdownNames) && scenes == old(scenes))
      ensures manager != null && GateOpen(|old(sceneNames)|, |manager.scenes|, old(counter)) ==>
        (sceneNames == (if searchString == "" && currentSearchType == SearchScenes
                        then SortedNames(manager.scenes) else old(sceneNames)) &&
         dropdownNames == Some(sceneNames) &&
         scenes == FirstMatches(sceneNames, manager.scenes))
      ensures manager != null && GateOpen(|old(sceneNames)|, |manager.scenes|, old(counter)) ==>
        ResolvesFirst(sceneNames, manager.scenes, scenes)
      ensures (manager != null && GateOpen(|old(sceneNames)|, |manager.scenes|, old(counter)) &&
        searchString == "" && currentSearchType == SearchScenes) ==>
        ((forall n :: n in sceneNames <==> HasName(manager.scenes, n)) &&
         |scenes| == |sceneNames| &&
         (forall i :: 0 <= i < |scenes| ==> Some(scenes[i]) == FirstWithName(manager.scenes, sceneNames[i])))
    {
      if manager != null {
        if GateOpen(|sceneNames|, |manager.scenes|, counter) {
          RebuildSceneList();
        }
        counter := counter + dt;
      }
    }

    /** `DrawSearchSection`: the scene mask next to the search box is shown, and can
        change `CurrentScene`, only for the listener and reference searches. */
    method SelectSceneMask(value: bv32)
      modifies this`currentScene
      ensures currentScene == if currentSearchType > 1 && manager != null then value else old(currentScene)
    {
      if currentSearchType > 1 && manager != null {
        currentScene := value;
      }
    }

    /** `DrawSearchSection`: picking another search type clears the query and both masks. */
    method SelectSearchType(searchType: nat)
      modifies this`currentSearchType, this`searchString, this`currentScene, this`filter
      ensures currentSearchType == searchType
      ensures searchType != old(currentSearchType) ==>
        searchString == "" && currentScene == 0 && filter == 0
      ensures searchType == old(currentSearchType) ==>
        searchString == old(searchString) && currentScene == old(currentScene) && filter == old(filter)
    {
      if searchType != currentSearchType {
        searchString := "";
        currentScene := 0;
        filter := 0;
      }
      currentSearchType := searchType;
    }

    /** `DrawLeftDataPanel`: switching tabs clears the query and hides the details panel. */
    method SelectTab(tab: nat)
      modifies this`currentTab, this`searchString, this`showRightPanel
      ensures currentTab == tab
      ensures tab != old(currentTab) ==> searchString == "" && !showRightPanel
      ensures tab == old(currentTab) ==>
        searchString == old(searchString) && showRightPanel == old(showRightPanel)
    {
      if tab != currentTab {
        searchString := "";
        showRightPanel := false;
        currentTab := tab;
      }
    }

    /** The scene search of `DoSearchField`, for a non-empty query: rebuild the names from the
        manager's handles and keep those that match. `SceneNames` is emptied
        before the manager is dereferenced. */
    method SearchSceneNames(result: string) returns (outcome: Outcome)
      requires Valid()
      modifies this`sceneNames
      ensures Valid()
      ensures outcome == NullReference <==> manager == null
      ensures sceneNames == if manager == null then [] else Keep(SortedNames(manager.scenes), Identity, result)
      ensures manager != null ==>
        forall n :: n in sceneNames <==> HasName(manager.scenes, n) && Matches(n, result)
    {
      sceneNames := [];
      if manager == null {
        return NullReference;
      }
      var all := CollectSceneNames(manager.scenes);
      var matching := FilterSceneNames(all, result);
      sceneNames := CopySortedSet(matching);
      return Completed;
    }

    /** The event search of `DoSearchField`: reload the events dictionary and keep the matching keys. */
    method SearchEventNames(result: string, found: Finds) returns (outcome: Outcome)
      modifies (if manager == null then {} else {manager})`events
      ensures outcome == NullReference <==> manager == null
      ensures manager != null ==> manager.events == EventsMatching(found.allEvents, result)
    {
      if manager == null {
        return NullReference;
      }
      manager.events := found.allEvents;
      manager.events := FilterEvents(manager.events, result);
      return Completed;
    }

    /** The listener and reference searches of `DoSearchField`: `filter` takes `CurrentScene`, the selected scenes are
        decoded from `DropdownNames`, and the listeners (or references) found
        in them are reloaded and filtered by name. */
    method SearchInScenes(result: string, found: Finds, ofListeners: bool) returns (outcome: Outcome)
      modifies this`filter
      modifies (if manager == null then {} else {manager})`listeners
      modifies (if manager == null then {} else {manager})`references
      ensures filter == currentScene
      ensures outcome == NullReference <==> dropdownNames.None?
      ensures manager != null ==> (manager.listeners == (
        if ofListeners && dropdownNames.Some?
        then Keep(found.listenersIn(Selected(dropdownNames.value, currentScene)), ListenerName, result)
        else old(manager.listeners)))
      ensures manager != null ==> (manager.references == (
        if !ofListeners && dropdownNames.Some?
        then Keep(found.referencesIn(Selected(dropdownNames.value, currentScene)), ReferenceName, result)
        else old(manager.references)))
    {
      filter := currentScene;
      if dropdownNames.None? {
        return NullReference;
      }
      var selected := DecodeMask(dropdownNames.value, filter);
      if manager != null {
        if ofListeners {
          manager.listeners := found.listenersIn(selected);
          manager.listeners := FilterByName(manager.listeners, ListenerName, result);
        } else {
          manager.references := found.referencesIn(selected);
          manager.references := FilterByName(manager.references, ReferenceName, result);
        }
      }
      return Completed;
    }

    /** The effect of the search of `DoSearchField` for a changed query: the tab
        follows the search type, exactly that type's collection is rebuilt and
        filtered (the scene search only for a non-empty query), and the pass
        aborts exactly on the null dereferences of `SearchThrows`. */
    twostate predicate SearchRan(result: string, found: Finds, outcome: Outcome)
      reads this, (if manager == null then {} else {manager})
    {
      manager == old(manager) &&
      (outcome == NullReference <==>
        SearchThrows(currentSearchType, result, manager != null, dropdownNames.Some?)) &&
      currentTab == currentSearchType &&
      // the scene search leaves the matching rebuilt names, or the empty set when it throws
      sceneNames == (
        if currentSearchType == SearchScenes && |result| > 0
        then (if manager == null then [] else Keep(SortedNames(manager.scenes), Identity, result))
        else old(sceneNames)) &&
      ((currentSearchType == SearchScenes && |result| > 0 && manager != null) ==>
        forall n :: n in sceneNames <==> HasName(manager.scenes, n) && Matches(n, result)) &&
      // the listener and reference searches copy the search-box mask into `filter`
      filter == (
        if currentSearchType == SearchListeners || currentSearchType == SearchReferences
        then currentScene else old(filter)) &&
      (manager != null ==> (manager.events == (
        if currentSearchType == SearchEvents
        then EventsMatching(found.allEvents, result) else old(manager.events)))) &&
      (manager != null ==> (manager.listeners == (
        if currentSearchType == SearchListeners && dropdownNames.Some?
        then Keep(found.listenersIn(Selected(dropdownNames.value, currentScene)), ListenerName, result)
        else old(manager.listeners)))) &&
      (manager != null ==> (manager.references == (
        if currentSearchType == SearchReferences && dropdownNames.Some?
        then Keep(found.referencesIn(Selected(dropdownNames.value, currentScene)), ReferenceName, result)
        else old(manager.references))))
    }

    /** The search of `DoSearchField` for a changed query: show the tab of the
        search type and run that type's search. */
    method RunSearch(result: string, found: Finds) returns (outcome: Outcome)
      requires Valid()
      modifies this`currentTab, this`sceneNames, this`filter
      modifies (if manager == null then {} else {manager})`events
      modifies (if manager == null then {} else {manager})`listeners
      modifies (if manager == null then {} else {manager})`references
      ensures Valid()
      ensures SearchRan(result, found, outcome)
    {
      outcome := Completed;
      currentTab := currentSearchType;
      if currentSearchType == SearchScenes {
        if |result| > 0 {
          outcome := SearchSceneNames(result);
        }
      } else if currentSearchType == SearchEvents {
        outcome := SearchEventNames(result, found);
      } else if currentSearchType == SearchListeners || currentSearchType == SearchReferences {
        outcome := SearchInScenes(result, found, currentSearchType == SearchListeners);
      }
    }

    /** `DoSearchField`: the search box returned `result`. When it differs from
        the current query, the search of `SearchRan` runs; otherwise nothing
        changes. The query is stored unless a null dereference aborted the pass. */
    method DoSearchField(result: string, found: Finds) returns (outcome: Outcome)
      requires Valid()
      modifies this`currentTab, this`sceneNames, this`filter, this`searchString
      modifies (if manager == null then {} else {manager})`events
      modifies (if manager == null then {} else {manager})`listeners
      modifies (if manager == null then {} else {manager})`references
      ensures Valid()
      ensures result != old(searchString) ==> SearchRan(result, found, outcome)
      ensures result == old(searchString) ==>
        (outcome == Completed && currentTab == old(currentTab) && sceneNames == old(sceneNames) &&
         filter == old(filter))
      ensures result == old(searchString) && manager != null ==>
        (manager.events == old(manager.events) && manager.listeners == old(manager.listeners) &&
         manager.references == old(manager.references))
      ensures searchString == if outcome == Completed then result else old(searchString)
    {
      outcome := Completed;
      if result != searchString {
        outcome := RunSearch(result, found);
      }
      if outcome == Completed {
        searchString := result;
      }
    }

    /** `DrawLeftDataPanel`, events tab: "Find All Events in Project" clears the query and reloads
        the events dictionary. */
    method FindAllEventsClicked(found: Finds)
      modifies this`searchString, (if manager == null then {} else {manager})`events
      ensures manager == null ==> searchString == old(searchString)
      ensures manager != null ==> searchString == "" && manager.events == found.allEvents
    {
      if manager != null {
        searchString := "";
        manager.events := found.allEvents;
      }
    }

    /** `DrawLeftDataPanel`: the listeners tab's scene mask `pick` becomes `filter`;
        "Find Listeners in" (`clicked`) reloads the listeners of the selected scenes. */
    method ListenersToolbar(pick: bv32, clicked: bool, found: Finds) returns (outcome: Outcome)
      modifies this`filter, (if manager == null then {} else {manager})`listeners
      ensures outcome == NullReference <==> manager != null && dropdownNames.None?
      ensures filter == if manager != null then pick else old(filter)
      ensures manager != null ==> (manager.listeners == (
        if clicked && dropdownNames.Some?
        then found.listenersIn(Selected(dropdownNames.value, pick))
        else old(manager.listeners)))
    {
      if manager != null {
        filter := pick;
        if dropdownNames.None? {
          return NullReference;
        }
        var selected := DecodeMask(dropdownNames.value, filter);
        if clicked {
          manager.listeners := found.listenersIn(selected);
        }
      }
      return Completed;
    }

    /** `DrawLeftDataPanel`: the same for the references tab; "Find References in"
        also clears the query. */
    method ReferencesToolbar(pick: bv32, clicked: bool, found: Finds) returns (outcome: Outcome)
      modifies this`filter, this`searchString, (if manager == null then {} else {manager})`references
      ensures outcome == NullReference <==> manager != null && dropdownNames.None?
      ensures filter == if manager != null then pick else old(filter)
      ensures searchString ==
        if manager != null && clicked && dropdownNames.Some? then "" else old(searchString)
      ensures manager != null ==> (manager.references == (
        if clicked && dropdownNames.Some?
        then found.referencesIn(Selected(dropdownNames.value, pick))
        else old(manager.references)))
    {
      if manager != null {
        filter := pick;
        if dropdownNames.None? {
          return NullReference;
        }
        var selected := DecodeMask(dropdownNames.value, filter);
        if clicked {
          searchString := "";
          manager.references := found.referencesIn(selected);
        }
      }
      return Completed;
    }

    /** `DrawLeftDataPanel`, scenes tab: the "X" button of scene row i queues that scene for removal. */
    method QueueSceneDeletion(i: nat)
      requires i < |scenes|
      modifies this`toBeDeletedScene
      ensures toBeDeletedScene == Some(scenes[i])
    {
      toBeDeletedScene := Some(scenes[i]);
    }

    /** `DrawLeftDataPanel`, scenes tab: the scene picker closed on `picked` (null when nothing was chosen). */
    method PickScene(picked: Option<SceneAsset>)
      modifies this`pickedScene
      ensures pickedScene == picked
    {
      pickedScene := picked;
    }

    /** `DrawRightDataPanel`: the "X" button of a non-null entry of a collection queues
        that event together with the collection it is to be removed from. */
    method QueueEventDeletion(col: EventCollection, i: nat)
      requires i < |col.events| && col.events[i].Some?
      modifies this`toBeDeletedEvent, this`collectionToDeleteFrom
      ensures toBeDeletedEvent == col.events[i] && collectionToDeleteFrom == col
    {
      toBeDeletedEvent := col.events[i];
      collectionToDeleteFrom := col;
    }

    /** `DrawRightDataPanel`: the event picker reported `picked`. */
    method PickEvent(picked: Option<GameEvent>)
      modifies this`pickedEvent
      ensures pickedEvent == picked
    {
      pickedEvent := picked;
    }

    /** `DrawRightDataPanel`: the event picker closed while `col` was shown; it becomes
        the collection the pick is added to. */
    method CloseEventPicker(col: EventCollection)
      modifies this`gec
      ensures gec == col
    {
      gec := col;
    }

    /** No deferred command has all its operands: `OnInspectorUpdate` would do nothing. */
    predicate NothingArmed()
      reads this
    {
      !(gec != null && pickedEvent.Some?) &&
      !(manager != null && pickedScene.Some?) &&
      !(collectionToDeleteFrom != null && toBeDeletedEvent.Some?) &&
      !(manager != null && toBeDeletedScene.Some?)
    }

    /** The effect of the event commands of `OnInspectorUpdate`, for `g` and `c`
        the collections `gec` and `collectionToDeleteFrom` held before: the
        picked event is added to `g`, then the queued event is removed from `c`,
        each only when its operands are set and each clearing them. When both
        target one collection the removal sees the added event; otherwise a
        collection without a command keeps its list. */
    twostate predicate EventCommandsApplied(
      g: EventCollection?, c: EventCollection?,
      removeEvent: (seq<Option<GameEvent>>, GameEvent) -> seq<Option<GameEvent>>)
      requires g == old(gec) && c == old(collectionToDeleteFrom)
      reads this, (if g == null then {} else {g}), (if c == null then {} else {c})
    {
      // adding the picked event to `gec`
      (g != null && old(pickedEvent.Some?) ==> pickedEvent.None? && gec == null) &&
      (!(g != null && old(pickedEvent.Some?)) ==> pickedEvent == old(pickedEvent) && gec == g) &&
      ((g != null && old(pickedEvent.Some?) && !(c == g && old(toBeDeletedEvent.Some?))) ==>
        g.events == old(g.events) + [old(pickedEvent)]) &&
      // removing the queued event from its collection, after the add when both hit one collection
      (c != null && old(toBeDeletedEvent.Some?) ==>
        (toBeDeletedEvent.None? && collectionToDeleteFrom == null &&
         c.events == removeEvent(
           if g == c && old(pickedEvent.Some?) then old(c.events) + [old(pickedEvent)] else old(c.events),
           old(toBeDeletedEvent.value)))) &&
      (!(c != null && old(toBeDeletedEvent.Some?)) ==>
        toBeDeletedEvent == old(toBeDeletedEvent) && collectionToDeleteFrom == c) &&
      ((g != null && !old(pickedEvent.Some?) && !(c == g && old(toBeDeletedEvent.Some?))) ==>
        g.events == old(g.events)) &&
      ((c != null && !old(toBeDeletedEvent.Some?) && !(c == g && old(pickedEvent.Some?))) ==>
        c.events == old(c.events))
    }

    /** The effect of the scene commands of `OnInspectorUpdate`: with a manager,
        the picked scene is appended and then the queued one is removed, and both
        are cleared; without one both wait. */
    twostate predicate SceneCommandsApplied(
      removeScene: (seq<Option<SceneAsset>>, SceneAsset) -> seq<Option<SceneAsset>>)
      reads this, (if manager == null then {} else {manager})
    {
      manager == old(manager) &&
      (manager == null ==> pickedScene == old(pickedScene) && toBeDeletedScene == old(toBeDeletedScene)) &&
      (manager != null ==> (pickedScene.None? && toBeDeletedScene.None? &&
        manager.scenes == ScenesAfterCommands(old(manager.scenes), old(pickedScene), old(toBeDeletedScene), removeScene)))
    }

    /** The event commands of `OnInspectorUpdate`. */
    method ApplyEventCommands(removeEvent: (seq<Option<GameEvent>>, GameEvent) -> seq<Option<GameEvent>>)
      modifies this`pickedEvent, this`gec, this`toBeDeletedEvent, this`collectionToDeleteFrom
      modifies (if gec == null then {} else {gec})`events
      modifies (if collectionToDeleteFrom == null then {} else {collectionToDeleteFrom})`events
      ensures !(gec != null && pickedEvent.Some?) && !(collectionToDeleteFrom != null && toBeDeletedEvent.Some?)
      ensures EventCommandsApplied(old(gec), old(collectionToDeleteFrom), removeEvent)
    {
      if gec != null && pickedEvent.Some? {
        gec.events := gec.events + [pickedEvent];
        pickedEvent := None;
        gec := null;
      }
      if collectionToDeleteFrom != null && toBeDeletedEvent.Some? {
        collectionToDeleteFrom.events := removeEvent(collectionToDeleteFrom.events, toBeDeletedEvent.value);
        toBeDeletedEvent := None;
        collectionToDeleteFrom := null;
      }
    }

    /** The scene commands of `OnInspectorUpdate`. */
    method ApplySceneCommands(removeScene: (seq<Option<SceneAsset>>, SceneAsset) -> seq<Option<SceneAsset>>)
      modifies this`pickedScene, this`toBeDeletedScene
      modifies (if manager == null then {} else {manager})`scenes
      ensures SceneCommandsApplied(removeScene)
    {
      if pickedScene.Some? {
        if manager != null {
          manager.scenes := manager.scenes + [pickedScene];
          pickedScene := None;
        }
      }
      if toBeDeletedScene.Some? {
        if manager != null {
          manager.scenes := removeScene(manager.scenes, toBeDeletedScene.value);
          toBeDeletedScene := None;
        }
      }
    }

    /** `OnInspectorUpdate`: apply each pending command whose operands are all set,
        and clear its operands. `removeEvent` and `removeScene` are what
        `GameEventCollection.RemoveEvent` and `GameEventManager.RemoveScene` make of
        the list. The source interleaves the event and scene commands; the model
        runs the event commands first, which ends in the same state because the
        two removals are taken to change only the list they are given. */
    method OnInspectorUpdate(
      removeEvent: (seq<Option<GameEvent>>, GameEvent) -> seq<Option<GameEvent>>,
      removeScene: (seq<Option<SceneAsset>>, SceneAsset) -> seq<Option<SceneAsset>>)
      modifies this`pickedEvent, this`gec, this`pickedScene
      modifies this`toBeDeletedEvent, this`collectionToDeleteFrom, this`toBeDeletedScene
      modifies (if gec == null then {} else {gec})`events
      modifies (if collectionToDeleteFrom == null then {} else {collectionToDeleteFrom})`events
      modifies (if manager == null then {} else {manager})`scenes
      ensures NothingArmed()
      ensures EventCommandsApplied(old(gec), old(collectionToDeleteFrom), removeEvent)
      ensures SceneCommandsApplied(removeScene)
      // nothing armed, nothing done
      ensures old(NothingArmed()) ==>
        pickedEvent == old(pickedEvent) && gec == old(gec) && pickedScene == old(pickedScene) &&
        toBeDeletedEvent == old(toBeDeletedEvent) && collectionToDeleteFrom == old(collectionToDeleteFrom) &&
        toBeDeletedScene == old(toBeDeletedScene)
    {
      ApplyEventCommands(removeEvent);
      ApplySceneCommands(removeScene);
    }
  }

  /** The manager's scene list after the inspector tick: the picked scene is
      appended (even when already present), then the queued one is removed. */
  function ScenesAfterCommands(
    hs: seq<Option<SceneAsset>>, picked: Option<SceneAsset>, deleted: Option<SceneAsset>,
    removeScene: (seq<Option<SceneAsset>>, SceneAsset) -> seq<Option<SceneAsset>>): (r: seq<Option<SceneAsset>>)
    ensures deleted.None? && picked.Some? ==> |r| == |hs| + 1 && r[..|hs|] == hs && r[|hs|] == picked
    ensures deleted.None? && picked.None? ==> r == hs
  {
    var added := if picked.Some? then hs + [picked] else hs;
    if deleted.Some? then removeScene(added, deleted.value) else added
  }

  /** After a rebuild from `hs`, the count half of the gate stays open exactly
      when some handle is null or two handles share a name: then the list is
      rebuilt on every frame, before the cooldown is reached. */
  lemma GateAfterRebuild(hs: seq<Option<SceneAsset>>, counter: nat)
    ensures GateOpen(|SortedNames(hs)|, |hs|, counter) <==> !DistinctNonNull(hs) || counter >= CoolDown
  {
    SortedNamesCount(hs);
  }
}

/**
 * The scene controller (`SceneController`): a name-to-state map whose entries are
 * created on demand, the guarded scene load, and the list step of saving and
 * restoring the map. The engine's asynchronous load is split into the moment it
 * starts and the moment it completes.
 */
module SceneControl {
  import opened GameData
  import opened SceneStates
  import opened Wrappers

  datatype Controller = Controller(
    sceneStates: map<string, SceneState>,
    currentSceneName: string,
    isTransitioning: bool,
    /** Name of the scene the engine reports as active. */
    activeSceneName: string,
    /** Whether a fade canvas is assigned. */
    hasFadeCanvas: bool)

  /** A controller together with the scene state a lookup returned. */
  datatype Lookup = Lookup(ctrl: Controller, state: SceneState)

  /** A controller together with the events published on the way. */
  datatype Step = Step(ctrl: Controller, events: seq<Event>)

  /** Every entry is stored under its own scene name. */
  predicate KeyedByName(m: map<string, SceneState>) {
    forall k :: k in m ==> m[k].sceneName == k
  }

  /** The key a lookup uses: the name, or the active scene when the name is empty. */
  function StateKey(c: Controller, sceneName: string): string {
    if sceneName == "" then c.activeSceneName else sceneName
  }

  /** `GetSceneState(name)`: the stored entry, created fresh when missing. */
  function GetSceneState(c: Controller, sceneName: string): (r: Lookup)
    ensures var key := StateKey(c, sceneName);
      key in r.ctrl.sceneStates && r.ctrl.sceneStates[key] == r.state &&
      (key in c.sceneStates ==> r.ctrl == c) &&
      (key !in c.sceneStates ==>
        r.state == NewSceneState(key) && r.ctrl.sceneStates == c.sceneStates[key := r.state])
    ensures r.ctrl == c.(sceneStates := r.ctrl.sceneStates)
    ensures KeyedByName(c.sceneStates) ==> KeyedByName(r.ctrl.sceneStates)
  {
    var key := StateKey(c, sceneName);
    if key in c.sceneStates then Lookup(c, c.sceneStates[key])
    else
      var s := NewSceneState(key);
      Lookup(c.(sceneStates := c.sceneStates[key := s]), s)
  }

  /** A second lookup of the same name finds the entry the first one returned, and changes nothing. */
  lemma GetSceneStateStable(c: Controller, sceneName: string)
    ensures var first := GetSceneState(c, sceneName);
      GetSceneState(first.ctrl, sceneName) == first
  {
  }

  /** Replace the entry under `key`. */
  function PutSceneState(c: Controller, key: string, s: SceneState): (r: Controller)
    ensures r.sceneStates == c.sceneStates[key := s]
    ensures r == c.(sceneStates := r.sceneStates)
  {
    c.(sceneStates := c.sceneStates[key := s])
  }

  /** `GetSceneState(scene).DisableHotspot(id)`, the update hotspots make to their scene. */
  function DisableHotspotInScene(c: Controller, sceneName: string, hotspotID: string): (r: Controller)
    ensures var key := StateKey(c, sceneName);
      key in r.sceneStates && IsHotspotDisabled(r.sceneStates[key], hotspotID) &&
      (forall k :: k in c.sceneStates && k != key ==> k in r.sceneStates && r.sceneStates[k] == c.sceneStates[k])
    ensures r == c.(sceneStates := r.sceneStates)
  {
    var l := GetSceneState(c, sceneName);
    var key := StateKey(c, sceneName);
    PutSceneState(l.ctrl, key, DisableHotspot(l.state, hotspotID))
  }

  /** `ClearSceneState(name)`: drops that entry and no other. */
  function ClearSceneState(c: Controller, sceneName: string): (r: Controller)
    ensures sceneName !in r.sceneStates
    ensures forall k :: k in r.sceneStates <==> k in c.sceneStates && k != sceneName
    ensures forall k :: k in r.sceneStates ==> r.sceneStates[k] == c.sceneStates[k]
    ensures r == c.(sceneStates := r.sceneStates)
  {
    c.(sceneStates := c.sceneStates - {sceneName})
  }

  /** After clearing a named scene, looking it up yields a fresh, unvisited state. */
  lemma ClearThenGetIsFresh(c: Controller, sceneName: string)
    requires sceneName != ""
    ensures GetSceneState(ClearSceneState(c, sceneName), sceneName).state == NewSceneState(sceneName)
  {
  }

  /** `SaveCurrentSceneState()`: touches (and so creates) the current scene's entry, if there is a current scene. */
  function SaveCurrentSceneState(c: Controller): (r: Controller)
    ensures c.currentSceneName == "" ==> r == c
    ensures c.currentSceneName != "" ==> c.currentSceneName in r.sceneStates
    ensures forall k :: k in c.sceneStates ==> k in r.sceneStates && r.sceneStates[k] == c.sceneStates[k]
    ensures r == c.(sceneStates := r.sceneStates)
  {
    if c.currentSceneName == "" then c else GetSceneState(c, c.currentSceneName).ctrl
  }

  /** The start of the load coroutine: mark the transition, announce it, save the current scene. */
  function BeginLoad(c: Controller, sceneName: string): (r: Step)
    ensures r.ctrl.isTransitioning
    ensures r.events == [Event(SceneTransitionStart, Text(sceneName))]
    ensures r.ctrl == c.(isTransitioning := true, sceneStates := r.ctrl.sceneStates)
    ensures forall k :: k in c.sceneStates ==> k in r.ctrl.sceneStates && r.ctrl.sceneStates[k] == c.sceneStates[k]
    ensures forall k :: k in r.ctrl.sceneStates <==> k in c.sceneStates || (k == c.currentSceneName && k != "")
    ensures KeyedByName(c.sceneStates) ==> KeyedByName(r.ctrl.sceneStates)
  {
    Step(SaveCurrentSceneState(c.(isTransitioning := true)), [Event(SceneTransitionStart, Text(sceneName))])
  }

  /**
   * The end of the load coroutine. By the time it runs the engine has activated
   * the loaded scene, so the new scene is both current and active; its entry is
   * created if missing and marked visited, and the transition ends.
   */
  function FinishLoad(c: Controller, sceneName: string, now: string): (r: Step)
    ensures !r.ctrl.isTransitioning && r.ctrl.currentSceneName == sceneName && r.ctrl.activeSceneName == sceneName
    ensures r.ctrl.hasFadeCanvas == c.hasFadeCanvas
    ensures sceneName in r.ctrl.sceneStates
    ensures sceneName in c.sceneStates ==>
      r.ctrl.sceneStates[sceneName] == c.sceneStates[sceneName].(visited := true, lastVisitTime := now)
    ensures sceneName !in c.sceneStates ==>
      r.ctrl.sceneStates[sceneName] == NewSceneState(sceneName).(visited := true, lastVisitTime := now)
    ensures forall k :: k in r.ctrl.sceneStates <==> k in c.sceneStates || k == sceneName
    ensures forall k :: k in c.sceneStates && k != sceneName ==> r.ctrl.sceneStates[k] == c.sceneStates[k]
    ensures KeyedByName(c.sceneStates) ==> KeyedByName(r.ctrl.sceneStates)
    ensures r.events == [Event(SceneTransitionComplete, Text(sceneName))]
  {
    var c1 := c.(currentSceneName := sceneName, activeSceneName := sceneName);
    var l := GetSceneState(c1, sceneName);
    var c2 := PutSceneState(l.ctrl, StateKey(c1, sceneName), MarkVisited(l.state, now));
    Step(c2.(isTransitioning := false), [Event(SceneTransitionComplete, Text(sceneName))])
  }

  /** `LoadScene(name)`: refused for an empty name or while a transition runs; otherwise the load starts. */
  function LoadScene(c: Controller, sceneName: string): (r: Step)
    ensures sceneName == "" || c.isTransitioning <==> r == Step(c, [])
    ensures sceneName != "" && !c.isTransitioning ==> r == BeginLoad(c, sceneName)
  {
    if sceneName == "" || c.isTransitioning then Step(c, []) else BeginLoad(c, sceneName)
  }

  /**
   * `TransitionToScene(name)`: without a fade canvas it falls back to the guarded
   * `LoadScene`; with one it starts the load with no in-progress check at all.
   */
  function TransitionToScene(c: Controller, sceneName: string): (r: Step)
    ensures !c.hasFadeCanvas ==> r == LoadScene(c, sceneName)
    ensures c.hasFadeCanvas ==> r == BeginLoad(c, sceneName)
  {
    if c.hasFadeCanvas then BeginLoad(c, sceneName) else LoadScene(c, sceneName)
  }

  /** With a fade canvas a second transition starts even though one is already running. */
  lemma TransitionIgnoresProgress(c: Controller, sceneName: string)
    requires c.hasFadeCanvas && c.isTransitioning
    ensures TransitionToScene(c, sceneName).events != []
    ensures LoadScene(c, sceneName).events == []
  {
  }

  /**
   * A completed load leaves the requested scene current, active, visited at `now`
   * and out of transition; the scene left behind has an entry; every other entry
   * is untouched, and the two transition events come in order.
   */
  lemma LoadThenFinish(c: Controller, sceneName: string, now: string)
    requires sceneName != "" && !c.isTransitioning
    ensures var s1 := LoadScene(c, sceneName);
      var s2 := FinishLoad(s1.ctrl, sceneName, now);
      s2.ctrl.currentSceneName == sceneName && s2.ctrl.activeSceneName == sceneName && !s2.ctrl.isTransitioning &&
      s2.ctrl.sceneStates[sceneName].visited && s2.ctrl.sceneStates[sceneName].lastVisitTime == now &&
      (sceneName in c.sceneStates ==>
        s2.ctrl.sceneStates[sceneName] == c.sceneStates[sceneName].(visited := true, lastVisitTime := now)) &&
      (c.currentSceneName != "" ==> c.currentSceneName in s2.ctrl.sceneStates) &&
      (forall k :: k in s2.ctrl.sceneStates <==>
        k in c.sceneStates || k == sceneName || (k == c.currentSceneName && k != "")) &&
      (forall k :: k in c.sceneStates && k != sceneName ==> s2.ctrl.sceneStates[k] == c.sceneStates[k]) &&
      s1.events + s2.events ==
        [Event(SceneTransitionStart, Text(sceneName)), Event(SceneTransitionComplete, Text(sceneName))]
  {
  }

  // ------------------------------------------------------------ Save and restore

  /** `keys` lists exactly the keys of `m`, each once. */
  predicate Enumerates(keys: seq<string>, m: map<string, SceneState>) {
    (forall i, j :: 0 <= i < j < |keys| ==> keys[i] != keys[j]) &&
    (forall k :: k in m ==> k in keys) && (forall k :: k in keys ==> k in m)
  }

  /** The value list written when saving: the map's values in the given key order. */
  function SceneList(m: map<string, SceneState>, keys: seq<string>): (list: seq<SceneState>)
    requires forall k :: k in keys ==> k in m
    ensures |list| == |keys|
    ensures forall i :: 0 <= i < |keys| ==> list[i] == m[keys[i]]
  {
    if |keys| == 0 then [] else [m[keys[0]]] + SceneList(m, keys[1..])
  }

  /** No entry after position `i` carries the same scene name. */
  predicate LastWithName(list: seq<SceneState>, i: nat)
    requires i < |list|
  {
    forall j :: i < j < |list| ==> list[j].sceneName != list[i].sceneName
  }

  /** The map rebuilt on restore: each state stored under its own name, later entries overwriting earlier ones. */
  function Rebuild(list: seq<SceneState>): (m: map<string, SceneState>)
    ensures KeyedByName(m)
    ensures forall i :: 0 <= i < |list| ==> list[i].sceneName in m
    ensures forall k :: k in m ==> m[k] in list
  {
    if |list| == 0 then map[]
    else
      var init := list[..|list| - 1];
      var last := list[|list| - 1];
      assert list == init + [last];
      Rebuild(init)[last.sceneName := last]
  }

  /** The entry a name ends up with is the last state in the list carrying that name. */
  lemma {:induction false} RebuildLastWins(list: seq<SceneState>, i: nat)
    requires i < |list| && LastWithName(list, i)
    ensures Rebuild(list)[list[i].sceneName] == list[i]
  {
    var n := |list| - 1;
    if i < n {
      var init := list[..n];
      assert init[i] == list[i];
      assert LastWithName(init, i) by {
        forall j | i < j < |init| ensures init[j].sceneName != init[i].sceneName {
          assert init[j] == list[j];
        }
      }
      RebuildLastWins(init, i);
    }
  }

  /** Every entry of the map survives a save and restore unchanged. */
  lemma RebuildKeepsEntries(m: map<string, SceneState>, keys: seq<string>)
    requires KeyedByName(m) && Enumerates(keys, m)
    ensures forall k :: k in m ==> k in Rebuild(SceneList(m, keys)) && Rebuild(SceneList(m, keys))[k] == m[k]
  {
    var list := SceneList(m, keys);
    forall k | k in m ensures k in Rebuild(list) && Rebuild(list)[k] == m[k] {
      var i :| 0 <= i < |keys| && keys[i] == k;
      assert list[i].sceneName == k;
      assert LastWithName(list, i) by {
        forall j | i < j < |list| ensures list[j].sceneName != list[i].sceneName {
          assert list[j].sceneName == keys[j];
        }
      }
      RebuildLastWins(list, i);
    }
  }

  /** A save and restore adds no scene the map did not have. */
  lemma RebuildAddsNothing(m: map<string, SceneState>, keys: seq<string>)
    requires KeyedByName(m) && Enumerates(keys, m)
    ensures forall k :: k in Rebuild(SceneList(m, keys)) ==> k in m
  {
    var list := SceneList(m, keys);
    var r := Rebuild(list);
    forall k | k in r ensures k in m {
      var i :| 0 <= i < |list| && list[i] == r[k];
      assert k == r[k].sceneName;
      assert list[i] == m[keys[i]];
      assert keys[i] == m[keys[i]].sceneName;
    }
  }

  /** Restoring from the saved list reproduces the map, whenever every entry sits under its own name. */
  lemma RebuildSceneList(m: map<string, SceneState>, keys: seq<string>)
    requires KeyedByName(m) && Enumerates(keys, m)
    ensures Rebuild(SceneList(m, keys)) == m
  {
    RebuildKeepsEntries(m, keys);
    RebuildAddsNothing(m, keys);
  }

  /** `DeserializeSceneStates`: a list that could not be read (None) leaves the map alone; otherwise the map is rebuilt from it. */
  function DeserializeSceneStates(c: Controller, list: Option<seq<SceneState>>): (r: Controller)
    ensures list.None? ==> r == c
    ensures list.Some? ==> r.sceneStates == Rebuild(list.value)
    ensures r == c.(sceneStates := r.sceneStates)
  {
    if list.None? then c else c.(sceneStates := Rebuild(list.value))
  }
}

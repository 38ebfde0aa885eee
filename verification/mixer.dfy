/** The pieces of three.js's `AnimationMixer` and `AnimationAction` that the editor drives:
    the mixer's per-clip action cache, `clipAction`, `stopAllAction`, `uncacheClip`,
    `play`, `isRunning`, and the action's `time` and `paused` fields. */
module Mixer {

  /** An animation clip, identified by the object the glTF parser produced. */
  datatype Clip = Clip(id: nat, name: string)

  /** An action's playback state: its local time, whether it is paused, and whether the mixer
      has activated it (`play()` activates, `stop()` deactivates). `enabled`, `timeScale` and
      the scheduled start time keep their defaults throughout the editor. */
  datatype Action = Action(time: real, paused: bool, active: bool)

  /** A freshly created action, and an action after `stop()` (which also resets it). */
  const Idle: Action := Action(0.0, false, false)

  /** The mixer's cache: one action per clip it has handed out and not uncached. */
  datatype Mixer = Mixer(actions: map<Clip, Action>)

  /** `action.isRunning()` with the defaults above. */
  predicate IsRunning(a: Action)
  {
    a.active && !a.paused
  }

  /** `action.play()`: the mixer activates the action; its time and `paused` flag are left
      alone, so a paused action is activated without starting to run. */
  function Play(a: Action): (r: Action)
    ensures r.active && r.time == a.time && r.paused == a.paused
    ensures IsRunning(r) <==> !a.paused
    ensures a.active ==> r == a
  {
    a.(active := true)
  }

  /** `mixer.clipAction(clip)`: the cached action for the clip, or a new idle one that is
      cached from then on. */
  function ClipAction(m: Mixer, c: Clip): (r: (Mixer, Action))
    ensures c in r.0.actions && r.0.actions[c] == r.1
    ensures forall k :: k in m.actions ==> k in r.0.actions && r.0.actions[k] == m.actions[k]
    ensures r.0.actions.Keys == m.actions.Keys + {c}
    ensures c !in m.actions ==> r.1 == Idle
  {
    if c in m.actions then (m, m.actions[c])
    else (Mixer(m.actions[c := Idle]), Idle)
  }

  /** `mixer.stopAllAction()`: `stop()` on every active action, which deactivates it and resets
      its time and `paused`; an action that is not active is left as it is. */
  function StopAll(m: Mixer): (r: Mixer)
    ensures r.actions.Keys == m.actions.Keys
    ensures forall k :: k in m.actions && m.actions[k].active ==> r.actions[k] == Idle
    ensures forall k :: k in m.actions && !m.actions[k].active ==> r.actions[k] == m.actions[k]
    ensures forall k :: k in r.actions ==> !r.actions[k].active
  {
    Mixer(map k | k in m.actions :: if m.actions[k].active then Idle else m.actions[k])
  }

  /** `mixer.uncacheClip(clip)`: the clip's action leaves the cache; the others stay. */
  function Uncache(m: Mixer, c: Clip): (r: Mixer)
    ensures r.actions.Keys == m.actions.Keys - {c}
    ensures forall k :: k in r.actions ==> r.actions[k] == m.actions[k]
  {
    Mixer(m.actions - {c})
  }
}

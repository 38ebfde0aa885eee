/** The animation slot of a model: loading a clip onto the active model (`handleAnimationLoad`
    in loader.js) and the dashboard's Remove Animation, Play/Pause, rewind and forward buttons
    (dashboard.js). A model holds at most one `{clip, action}` binding. */
module Animation {
  import opened Wrappers
  import Mixer
  import Registry

  /** Why an animation load left every model as it was. */
  datatype LoadRefusal =
    | NoRiggedTarget   // no file, no active model, or an active model without a mixer
    | ParseFailed      // the glTF parser reported an error
    | NoAnimations     // the file parsed but holds no clips

  /** The binding of the active model, if there is an active model with one. */
  function ActiveBinding(r: Registry.Registry): Option<Registry.Binding>
  {
    match Registry.Active(r)
    case None => None
    case Some(m) => m.animation
  }

  /** The mixer's cache holds the bound clip's action and nothing else, so a model never keeps
      actions for clips it no longer shows. */
  predicate OnlyBoundCached(e: Registry.ModelEntry)
  {
    e.mixer.Some? ==>
      forall c :: c in e.mixer.value.actions ==> e.animation.Some? && c == e.animation.value.clip
  }

  /** The guard applied when the file is picked: a file, an active model, and a mixer on it. */
  predicate CanLoad(r: Registry.Registry, fileChosen: bool)
  {
    fileChosen && Registry.Active(r).Some? && Registry.Active(r).value.mixer.Some?
  }

  /** `handleAnimationLoad`: `fileChosen` is whether the input held a file and `parsed` the
      parser's answer for it (`None` for the error callback). On success the old binding, if
      any, is stopped with the rest of the mixer and its clip uncached, and the file's first clip
      is bound to the action the mixer hands out for it. */
  function LoadAnimation(r: Registry.Registry, fileChosen: bool, parsed: Option<seq<Mixer.Clip>>)
    : (res: Result<Registry.Registry, LoadRefusal>)
    ensures res == Err(NoRiggedTarget) <==> !CanLoad(r, fileChosen)
    ensures res == Err(ParseFailed) <==> CanLoad(r, fileChosen) && parsed.None?
    ensures res == Err(NoAnimations) <==> CanLoad(r, fileChosen) && parsed == Some([])
    ensures res.Ok? <==> CanLoad(r, fileChosen) && parsed.Some? && |parsed.value| > 0
    ensures res.Ok? ==> res.value.models.Keys == r.models.Keys
    ensures res.Ok? ==>
              var id := r.active.value;
              var m, m' := r.models[id], res.value.models[id];
              var c := parsed.value[0];
              && res.value.order == r.order && res.value.active == r.active
              && res.value.models.Keys == r.models.Keys
              && (forall k :: k in r.models && k != id ==> res.value.models[k] == r.models[k])
              && m'.info == m.info && m'.scene == m.scene && m'.attached == m.attached
              && m'.mixer.Some? && m'.animation.Some? && m'.animation.value.clip == c
              && c in m'.mixer.value.actions && m'.mixer.value.actions[c] == m'.animation.value.action
              && (c !in m.mixer.value.actions || (m.animation.Some? && c == m.animation.value.clip) ==>
                    m'.animation.value.action == Mixer.Idle)
              && (m.animation.Some? ==>
                    var cache := m.mixer.value.actions;
                    && m'.mixer.value.actions.Keys == cache.Keys - {m.animation.value.clip} + {c}
                    && (forall k :: k in m'.mixer.value.actions ==> !m'.mixer.value.actions[k].active)
                    && (forall k :: k in cache && k != m.animation.value.clip && cache[k].active ==>
                          m'.mixer.value.actions[k] == Mixer.Idle)
                    && (forall k :: k in cache && k != m.animation.value.clip && !cache[k].active ==>
                          m'.mixer.value.actions[k] == cache[k]))
              && (m.animation.None? ==>
                    && m'.mixer.value.actions.Keys == m.mixer.value.actions.Keys + {c}
                    && forall k :: k in m.mixer.value.actions ==>
                         m'.mixer.value.actions[k] == m.mixer.value.actions[k])
    ensures res.Ok? && Registry.Valid(r) ==> Registry.Valid(res.value)
  {
    if !CanLoad(r, fileChosen) then
      Err(NoRiggedTarget)
    else if parsed.None? then
      Err(ParseFailed)
    else if |parsed.value| == 0 then
      Err(NoAnimations)
    else
      var id := r.active.value;
      var m := r.models[id];
      var mixer :=
        if m.animation.Some? then Mixer.Uncache(Mixer.StopAll(m.mixer.value), m.animation.value.clip)
        else m.mixer.value;
      var clip := parsed.value[0];
      var (mixer', action) := Mixer.ClipAction(mixer, clip);
      Ok(Registry.Put(r, id, m.(mixer := Some(mixer'), animation := Some(Registry.Binding(clip, action)))))
  }

  /** The Remove Animation button: when the active model has a binding, its mixer is stopped,
      the clip uncached and the binding dropped. */
  function RemoveAnimation(r: Registry.Registry): (r': Registry.Registry)
    ensures ActiveBinding(r).None? ==> r' == r
    ensures r'.order == r.order && r'.active == r.active && r'.models.Keys == r.models.Keys
    ensures forall k :: k in r.models && Some(k) != r.active ==> r'.models[k] == r.models[k]
    ensures ActiveBinding(r').None?
    ensures ActiveBinding(r).Some? ==>
              var m, m' := r.models[r.active.value], r'.models[r.active.value];
              && m'.info == m.info && m'.scene == m.scene && m'.attached == m.attached
              && m'.mixer.Some? == m.mixer.Some?
              && (m.mixer.Some? ==>
                    var cache := m.mixer.value.actions;
                    && m'.mixer.value.actions.Keys == cache.Keys - {m.animation.value.clip}
                    && (forall k :: k in m'.mixer.value.actions ==> !m'.mixer.value.actions[k].active)
                    && (forall k :: k in m'.mixer.value.actions && cache[k].active ==>
                          m'.mixer.value.actions[k] == Mixer.Idle)
                    && (forall k :: k in m'.mixer.value.actions && !cache[k].active ==>
                          m'.mixer.value.actions[k] == cache[k]))
    ensures Registry.Valid(r) ==> Registry.Valid(r')
  {
    match Registry.Active(r)
    case None => r
    case Some(m) =>
      match m.animation
      case None => r
      case Some(b) =>
        var mixer := if m.mixer.Some? then Some(Mixer.Uncache(Mixer.StopAll(m.mixer.value), b.clip)) else None;
        Registry.Put(r, r.active.value, m.(mixer := mixer, animation := None))
  }

  /** `r'` differs from `r` only in the active binding's action and in the mixer's cached
      copy of that clip's action: every other model, the active model's info, scene, anchor
      and bound clip, and every other cached action stay as they were. */
  predicate OnlyActionChanged(r: Registry.Registry, r': Registry.Registry)
  {
    && ActiveBinding(r).Some? && ActiveBinding(r').Some?
    && r'.order == r.order && r'.active == r.active && r'.models.Keys == r.models.Keys
    && (forall k :: k in r.models && Some(k) != r.active ==> r'.models[k] == r.models[k])
    && var m, m' := r.models[r.active.value], r'.models[r.active.value];
       var b, a' := m.animation.value, m'.animation.value.action;
       && m'.info == m.info && m'.scene == m.scene && m'.attached == m.attached
       && m'.animation == Some(b.(action := a'))
       && m'.mixer.Some? == m.mixer.Some?
       && (m.mixer.Some? ==>
             var c, c' := m.mixer.value.actions, m'.mixer.value.actions;
             && c'.Keys == c.Keys
             && (forall k :: k in c && k != b.clip ==> c'[k] == c[k])
             && (b.clip in c ==> c'[b.clip] == a'))
  }

  /** Writes a new state for the active binding's action: the application holds one action
      object under both `m.animation.action` and the mixer's cache, so both change together. */
  function WithAction(r: Registry.Registry, a: Mixer.Action): (r': Registry.Registry)
    requires ActiveBinding(r).Some?
    ensures ActiveBinding(r') == Some(ActiveBinding(r).value.(action := a))
    ensures r'.order == r.order && r'.active == r.active && r'.models.Keys == r.models.Keys
    ensures forall k :: k in r.models && Some(k) != r.active ==> r'.models[k] == r.models[k]
    ensures var m, m' := r.models[r.active.value], r'.models[r.active.value];
            && m'.info == m.info && m'.scene == m.scene && m'.attached == m.attached
            && m'.mixer.Some? == m.mixer.Some?
            && (m.mixer.Some? ==> m'.mixer.value.actions.Keys == m.mixer.value.actions.Keys)
    ensures OnlyActionChanged(r, r')
    ensures Registry.Valid(r) ==> Registry.Valid(r')
  {
    var id := r.active.value;
    var m := r.models[id];
    var b := m.animation.value;
    var mixer :=
      if m.mixer.Some? && b.clip in m.mixer.value.actions
      then Some(Mixer.Mixer(m.mixer.value.actions[b.clip := a]))
      else m.mixer;
    Registry.Put(r, id, m.(mixer := mixer, animation := Some(b.(action := a))))
  }

  /** The Play/Pause button as written: `paused` is negated, then `play()` activates the action
      unless it is running. */
  function PlayPause(r: Registry.Registry): (r': Registry.Registry)
    ensures ActiveBinding(r).None? ==> r' == r
    ensures ActiveBinding(r).Some? <==> ActiveBinding(r').Some?
    ensures ActiveBinding(r).Some? ==>
              var a, a' := ActiveBinding(r).value.action, ActiveBinding(r').value.action;
              a'.paused == !a.paused && a'.active && a'.time == a.time
    ensures r'.order == r.order && r'.active == r.active && r'.models.Keys == r.models.Keys
    ensures forall k :: k in r.models && Some(k) != r.active ==> r'.models[k] == r.models[k]
    ensures ActiveBinding(r).Some? ==> OnlyActionChanged(r, r')
    ensures Registry.Valid(r) ==> Registry.Valid(r')
  {
    match ActiveBinding(r)
    case None => r
    case Some(b) =>
      var toggled := b.action.(paused := !b.action.paused);
      WithAction(r, if !Mixer.IsRunning(toggled) then Mixer.Play(toggled) else toggled)
  }

  /** The rewind button: half a second back, never before zero. */
  function Rewind(r: Registry.Registry): (r': Registry.Registry)
    ensures ActiveBinding(r).None? ==> r' == r
    ensures ActiveBinding(r).Some? <==> ActiveBinding(r').Some?
    ensures ActiveBinding(r).Some? ==>
              var a, a' := ActiveBinding(r).value.action, ActiveBinding(r').value.action;
              && a'.time >= 0.0
              && (a.time >= 0.5 ==> a'.time == a.time - 0.5)
              && (a.time < 0.5 ==> a'.time == 0.0)
              && a'.paused == a.paused && a'.active == a.active
    ensures r'.order == r.order && r'.active == r.active && r'.models.Keys == r.models.Keys
    ensures forall k :: k in r.models && Some(k) != r.active ==> r'.models[k] == r.models[k]
    ensures ActiveBinding(r).Some? ==> OnlyActionChanged(r, r')
    ensures Registry.Valid(r) ==> Registry.Valid(r')
  {
    match ActiveBinding(r)
    case None => r
    case Some(b) =>
      var t := b.action.time - 0.5;
      WithAction(r, b.action.(time := if t > 0.0 then t else 0.0))
  }

  /** The forward button: half a second on. */
  function Forward(r: Registry.Registry): (r': Registry.Registry)
    ensures ActiveBinding(r).None? ==> r' == r
    ensures ActiveBinding(r).Some? <==> ActiveBinding(r').Some?
    ensures ActiveBinding(r).Some? ==>
              var a, a' := ActiveBinding(r).value.action, ActiveBinding(r').value.action;
              a'.time - a.time == 0.5 && a'.paused == a.paused && a'.active == a.active
    ensures r'.order == r.order && r'.active == r.active && r'.models.Keys == r.models.Keys
    ensures forall k :: k in r.models && Some(k) != r.active ==> r'.models[k] == r.models[k]
    ensures ActiveBinding(r).Some? ==> OnlyActionChanged(r, r')
    ensures Registry.Valid(r) ==> Registry.Valid(r')
  {
    match ActiveBinding(r)
    case None => r
    case Some(b) =>
      WithAction(r, b.action.(time := b.action.time + 0.5))
  }

  /** Every model's mixer caches at most the action of its bound clip. */
  predicate SlotsTidy(r: Registry.Registry)
  {
    forall id :: id in r.models ==> OnlyBoundCached(r.models[id])
  }

  /** Loading replaces the binding without leaving the old clip cached, so a model never holds
      more than one animation; removing, playing, pausing and seeking keep that so. */
  lemma SlotsStayTidy(r: Registry.Registry, fileChosen: bool, parsed: Option<seq<Mixer.Clip>>)
    requires SlotsTidy(r)
    ensures LoadAnimation(r, fileChosen, parsed).Ok? ==> SlotsTidy(LoadAnimation(r, fileChosen, parsed).value)
    ensures SlotsTidy(RemoveAnimation(r))
    ensures SlotsTidy(PlayPause(r)) && SlotsTidy(Rewind(r)) && SlotsTidy(Forward(r))
  {
    if LoadAnimation(r, fileChosen, parsed).Ok? {
      LoadKeepsTidy(r, fileChosen, parsed);
    }
    if ActiveBinding(r).Some? {
      RemoveKeepsTidy(r);
      SeekKeepsTidy(r);
    }
  }

  lemma SeekKeepsTidy(r: Registry.Registry)
    requires SlotsTidy(r) && ActiveBinding(r).Some?
    ensures SlotsTidy(PlayPause(r)) && SlotsTidy(Rewind(r)) && SlotsTidy(Forward(r))
  {
    var id := r.active.value;
    assert OnlyBoundCached(r.models[id]);
    assert OnlyBoundCached(PlayPause(r).models[id]);
    assert OnlyBoundCached(Rewind(r).models[id]);
    assert OnlyBoundCached(Forward(r).models[id]);
  }

  lemma LoadKeepsTidy(r: Registry.Registry, fileChosen: bool, parsed: Option<seq<Mixer.Clip>>)
    requires SlotsTidy(r) && LoadAnimation(r, fileChosen, parsed).Ok?
    ensures SlotsTidy(LoadAnimation(r, fileChosen, parsed).value)
  {
    var id := r.active.value;
    assert OnlyBoundCached(r.models[id]);
    assert OnlyBoundCached(LoadAnimation(r, fileChosen, parsed).value.models[id]);
  }

  lemma RemoveKeepsTidy(r: Registry.Registry)
    requires SlotsTidy(r) && ActiveBinding(r).Some?
    ensures SlotsTidy(RemoveAnimation(r))
  {
    var id := r.active.value;
    assert OnlyBoundCached(r.models[id]);
    assert OnlyBoundCached(RemoveAnimation(r).models[id]);
  }

  /** Replacing a binding uncaches the clip it replaces. */
  lemma ReplacedClipUncached(r: Registry.Registry, fileChosen: bool, parsed: Option<seq<Mixer.Clip>>)
    requires LoadAnimation(r, fileChosen, parsed).Ok?
    requires ActiveBinding(r).Some? && ActiveBinding(r).value.clip != parsed.value[0]
    ensures ActiveBinding(r).value.clip !in LoadAnimation(r, fileChosen, parsed).value.models[r.active.value].mixer.value.actions
  {
  }

  /** On a model whose cache holds only its bound clip, loading binds a fresh, idle action:
      the new clip was either never cached or is the old clip, which loading uncaches first. */
  lemma LoadBindsIdleAction(r: Registry.Registry, fileChosen: bool, parsed: Option<seq<Mixer.Clip>>)
    requires SlotsTidy(r) && LoadAnimation(r, fileChosen, parsed).Ok?
    ensures ActiveBinding(LoadAnimation(r, fileChosen, parsed).value).value.action == Mixer.Idle
  {
    assert OnlyBoundCached(r.models[r.active.value]);
  }

  /** Removing twice is removing once. */
  lemma RemoveAnimationIdempotent(r: Registry.Registry)
    ensures RemoveAnimation(RemoveAnimation(r)) == RemoveAnimation(r)
  {
  }

  /** Pressing Play/Pause twice restores `paused` and leaves the action activated. */
  lemma PlayPauseTwice(r: Registry.Registry)
    requires ActiveBinding(r).Some?
    ensures var a, a'' := ActiveBinding(r).value.action, ActiveBinding(PlayPause(PlayPause(r))).value.action;
            a''.paused == a.paused && a''.time == a.time && a''.active
  {
  }

  /** Forward then rewind returns to the same time, for any non-negative time. */
  lemma RewindUndoesForward(r: Registry.Registry)
    requires ActiveBinding(r).Some? && ActiveBinding(r).value.action.time >= 0.0
    ensures ActiveBinding(Rewind(Forward(r))) == ActiveBinding(r)
  {
  }

  /** Rewind then forward returns to the same time once at least half a second has played;
      before that, rewinding clamps at zero and forward lands on half a second. */
  lemma ForwardAfterRewind(r: Registry.Registry)
    requires ActiveBinding(r).Some?
    ensures var t, t' := ActiveBinding(r).value.action.time, ActiveBinding(Forward(Rewind(r))).value.action.time;
            (t >= 0.5 ==> t' == t) && (t < 0.5 ==> t' == 0.5)
  {
  }

  /** A freshly bound action has never been played: pressing Play/Pause once leaves it paused
      and so not running, and only a second press starts it. */
  lemma FirstPressDoesNotStart(r: Registry.Registry)
    requires ActiveBinding(r).Some? && ActiveBinding(r).value.action == Mixer.Idle
    ensures !Mixer.IsRunning(ActiveBinding(PlayPause(r)).value.action)
    ensures Mixer.IsRunning(ActiveBinding(PlayPause(PlayPause(r))).value.action)
  {
  }

  /** Play/Pause as the button's label promises: a running action is paused, any other one is
      unpaused and activated. */
  function PlayPauseToggle(r: Registry.Registry): (r': Registry.Registry)
    ensures ActiveBinding(r).None? ==> r' == r
    ensures ActiveBinding(r).Some? <==> ActiveBinding(r').Some?
    ensures ActiveBinding(r).Some? ==>
              var a, a' := ActiveBinding(r).value.action, ActiveBinding(r').value.action;
              (Mixer.IsRunning(a') <==> !Mixer.IsRunning(a)) && a'.time == a.time
    ensures r'.order == r.order && r'.active == r.active && r'.models.Keys == r.models.Keys
    ensures forall k :: k in r.models && Some(k) != r.active ==> r'.models[k] == r.models[k]
    ensures ActiveBinding(r).Some? ==> OnlyActionChanged(r, r')
    ensures Registry.Valid(r) ==> Registry.Valid(r')
  {
    match ActiveBinding(r)
    case None => r
    case Some(b) =>
      WithAction(r, if Mixer.IsRunning(b.action) then b.action.(paused := true)
                    else Mixer.Play(b.action.(paused := false)))
  }

  /** With the toggle as intended, one press starts a freshly bound action. */
  lemma ToggleStartsFreshAction(r: Registry.Registry)
    requires ActiveBinding(r).Some? && ActiveBinding(r).value.action == Mixer.Idle
    ensures Mixer.IsRunning(ActiveBinding(PlayPauseToggle(r)).value.action)
  {
  }
}

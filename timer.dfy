/** `TimerManager` and `TimerTask_Impl` (CruUI/Timer.cpp): a map from platform
    timer id to the action to run when that timer fires. `::SetTimer` is
    outside the model: the id it returns is an input. Actions are opaque;
    running an entry appends its action to the `ran` log. */
module Timers {
  import opened Wrappers

  /** A platform timer id (`UINT_PTR`). */
  type TimerId = nat

  /** An opaque user action (`TimerAction`). */
  type ActionId = nat

  /** What `map_[id]` holds: the action itself for a looping timer, or the
      wrapper that runs the action and then kills its own id. */
  datatype Entry = Looping(action: ActionId) | OneShot(action: ActionId)

  /** The entry `CreateTimer` stores for `loop` and `action`. */
  function EntryFor(loop: bool, action: ActionId): (e: Entry)
    ensures e.action == action
    ensures e.Looping? <==> loop
  {
    if loop then Looping(action) else OneShot(action)
  }

  /** The map after `KillTimer(id)`. */
  function Killed(m: map<TimerId, Entry>, id: TimerId): (r: map<TimerId, Entry>)
    ensures id !in r
    ensures forall k :: k in m && k != id ==> k in r && r[k] == m[k]
    ensures r.Keys <= m.Keys
  {
    m - {id}
  }

  /** Killing is idempotent, so cancelling a task twice is cancelling it once. */
  lemma KillIdempotent(m: map<TimerId, Entry>, id: TimerId)
    ensures Killed(Killed(m, id), id) == Killed(m, id)
  {
  }

  /** Killing an id that has no entry changes nothing. */
  lemma KillAbsent(m: map<TimerId, Entry>, id: TimerId)
    requires id !in m
    ensures Killed(m, id) == m
  {
  }

  /** Creating a timer and killing it restores a map that had no entry under
      that id. */
  lemma CreateThenKill(m: map<TimerId, Entry>, id: TimerId, e: Entry)
    requires id !in m
    ensures Killed(m[id := e], id) == m
  {
  }

  /** The static `TimerManager::instance`. */
  class InstanceSlot {
    var instance: TimerManager?

    constructor ()
      ensures instance == null
    {
      instance := null;
    }
  }

  class TimerManager {
    var entries: map<TimerId, Entry>
    /** The ids passed to the platform's `::KillTimer`, in order. */
    var platformKilled: seq<TimerId>
    /** The actions run so far, in order. */
    var ran: seq<ActionId>

    /** The constructor registers the new manager as the global instance. */
    constructor (slot: InstanceSlot)
      modifies slot
      ensures slot.instance == this
      ensures entries == map[] && platformKilled == [] && ran == []
    {
      entries := map[];
      platformKilled := [];
      ran := [];
      new;
      slot.instance := this;
    }

    /** The destructor clears the global instance. */
    method Dispose(slot: InstanceSlot)
      modifies slot
      ensures slot.instance == null
    {
      slot.instance := null;
    }

    /** `CreateTimer(milliseconds, loop, action)`; `platformId` is what
        `::SetTimer` returned. A previous entry under that id is replaced. */
    method CreateTimer(platformId: TimerId, loop: bool, action: ActionId) returns (id: TimerId)
      modifies this
      ensures id == platformId
      ensures entries == old(entries)[id := EntryFor(loop, action)]
      ensures platformKilled == old(platformKilled) && ran == old(ran)
    {
      id := platformId;
      if loop {
        entries := entries[id := Looping(action)];
      } else {
        entries := entries[id := OneShot(action)];
      }
    }

    /** `KillTimer(id)`: erases the entry and stops the platform timer when
        the id is present, and does nothing otherwise. */
    method KillTimer(id: TimerId)
      modifies this
      ensures entries == Killed(old(entries), id)
      ensures platformKilled == old(platformKilled) + (if id in old(entries) then [id] else [])
      ensures ran == old(ran)
    {
      if id in entries {
        platformKilled := platformKilled + [id];
        entries := entries - {id};
      }
    }

    /** `GetAction(id)`: the stored entry, or empty for an unknown id. */
    function GetAction(id: TimerId): (r: Option<Entry>)
      reads this
      ensures r.None? <==> id !in entries
      ensures r.Some? ==> r.value == entries[id]
    {
      if id in entries then Some(entries[id]) else None
    }

    /** Invoking the stored entry when its timer fires: a looping entry is
        the action and stays; a one-shot entry runs the action and then
        kills its own id. */
    method RunEntry(id: TimerId)
      requires id in entries
      modifies this
      ensures ran == old(ran) + [old(entries)[id].action]
      ensures old(entries)[id].Looping? ==> entries == old(entries) && platformKilled == old(platformKilled)
      ensures old(entries)[id].OneShot? ==>
        entries == Killed(old(entries), id) && platformKilled == old(platformKilled) + [id]
    {
      var e := entries[id];
      ran := ran + [e.action];
      if e.OneShot? {
        KillTimer(id);
      }
    }
  }

  /** What goes wrong when a task operation reaches `GetInstance()` while
      no `TimerManager` exists: the null instance is dereferenced. */
  datatype TimerFault = NullInstance

  /** `TimerTask_Impl`: the handle `SetTimeout`/`SetInterval` return. */
  class TimerTask {
    const id: TimerId

    constructor (id: TimerId)
      ensures this.id == id
    {
      this.id := id;
    }

    /** `Cancel()`: `KillTimer` on the task's id through the global
        instance, which is dereferenced unchecked. */
    method Cancel(slot: InstanceSlot) returns (r: Outcome<TimerFault>)
      modifies slot.instance
      ensures r.Fail? <==> slot.instance == null
      ensures r.Fail? ==> r.error == NullInstance
      ensures slot.instance == old(slot.instance)
      ensures slot.instance != null ==>
        && slot.instance.entries == Killed(old(slot.instance.entries), id)
        && slot.instance.platformKilled ==
             old(slot.instance.platformKilled) + (if id in old(slot.instance.entries) then [id] else [])
        && slot.instance.ran == old(slot.instance.ran)
    {
      var m := slot.instance;
      if m == null {
        return Fail(NullInstance);
      }
      m.KillTimer(id);
      r := Pass;
    }
  }

  /** `SetTimeout(seconds, action)`: a one-shot timer; `platformId` is the id
      `::SetTimer` returns. The global instance is dereferenced unchecked. */
  method SetTimeout(slot: InstanceSlot, platformId: TimerId, action: ActionId) returns (r: Result<TimerTask, TimerFault>)
    modifies slot.instance
    ensures r.Err? <==> slot.instance == null
    ensures r.Err? ==> r.error == NullInstance
    ensures slot.instance == old(slot.instance)
    ensures r.Ok? ==>
      && r.value.id == platformId
      && slot.instance.entries == old(slot.instance.entries)[platformId := OneShot(action)]
      && slot.instance.platformKilled == old(slot.instance.platformKilled)
      && slot.instance.ran == old(slot.instance.ran)
  {
    var m := slot.instance;
    if m == null {
      return Err(NullInstance);
    }
    var id := m.CreateTimer(platformId, false, action);
    var task := new TimerTask(id);
    r := Ok(task);
  }

  /** `SetInterval(seconds, action)`: a looping timer. */
  method SetInterval(slot: InstanceSlot, platformId: TimerId, action: ActionId) returns (r: Result<TimerTask, TimerFault>)
    modifies slot.instance
    ensures r.Err? <==> slot.instance == null
    ensures r.Err? ==> r.error == NullInstance
    ensures slot.instance == old(slot.instance)
    ensures r.Ok? ==>
      && r.value.id == platformId
      && slot.instance.entries == old(slot.instance.entries)[platformId := Looping(action)]
      && slot.instance.platformKilled == old(slot.instance.platformKilled)
      && slot.instance.ran == old(slot.instance.ran)
  {
    var m := slot.instance;
    if m == null {
      return Err(NullInstance);
    }
    var id := m.CreateTimer(platformId, true, action);
    var task := new TimerTask(id);
    r := Ok(task);
  }

  /** A one-shot timer fires once: after it runs, `GetAction` finds nothing,
      and a later `Cancel` is a no-op. Without a `TimerManager` nothing can
      be scheduled at all. */
  method OneShotScenario(slot: InstanceSlot, platformId: TimerId, action: ActionId)
    modifies slot.instance
    ensures slot.instance == old(slot.instance)
    ensures slot.instance != null ==>
      && slot.instance.GetAction(platformId).None?
      && slot.instance.ran == old(slot.instance.ran) + [action]
  {
    var r := SetTimeout(slot, platformId, action);
    if r.Ok? {
      var m := slot.instance;
      m.RunEntry(platformId);
      var c := r.value.Cancel(slot);
    }
  }
}

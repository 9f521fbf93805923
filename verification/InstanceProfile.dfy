// The role of an instance profile: a slot for at most one role, which has to be
// emptied before another role can be put in.
module InstanceProfile {
  import opened Base

  type Role = string

  class ProfileBackend {
    var failures: nat       // injected failures so far
    var writes: nat         // changes made so far
    var slot: Option<Role>
    var present: bool

    constructor ()
      ensures slot.None? && present && writes == 0
    {
      failures, writes, slot, present := 0, 0, None, true;
    }

    /** A profile that already has a role accepts no other. */
    method AddRole(role: Role) returns (err: Err)
      modifies this`failures, this`writes, this`slot
      ensures Counted(err, old(failures), failures)
      ensures err != Some(Injected) ==> err == if old(slot).Some? then Some(LimitExceeded) else None
      ensures if err.None? then slot == Some(role) && writes == old(writes) + 1
              else slot == old(slot) && writes == old(writes)
    {
      if * {
        failures := failures + 1;
        return Some(Injected);
      }
      if slot.Some? {
        return Some(LimitExceeded);
      }
      err, slot, writes := None, Some(role), writes + 1;
    }

    method RemoveRole(role: Role) returns (err: Err)
      modifies this`failures, this`writes, this`slot
      ensures Counted(err, old(failures), failures)
      ensures err != Some(Injected) ==> err == if old(slot) == Some(role) then None else Some(NoSuchEntity)
      ensures if err.None? then slot.None? && writes == old(writes) + 1
              else slot == old(slot) && writes == old(writes)
    {
      if * {
        failures := failures + 1;
        return Some(Injected);
      }
      if slot != Some(role) {
        return Some(NoSuchEntity);
      }
      err, slot, writes := None, None, writes + 1;
    }

    method Delete() returns (err: Err)
      modifies this`failures, this`present
      ensures Counted(err, old(failures), failures)
      ensures err != Some(Injected) ==> err == if slot.Some? then Some(DeleteConflict) else None
      ensures present == (old(present) && err.Some?)
    {
      if * {
        failures := failures + 1;
        return Some(Injected);
      }
      if slot.Some? {
        return Some(DeleteConflict);
      }
      err, present := None, false;
    }
  }

  /** Moves the slot to the desired role. Apart from injected failures it is
      refused exactly when something has to change and `latest` is not what the
      slot holds; a pass cut short has at most emptied the slot. */
  method SyncRole(b: ProfileBackend, desired: Option<Role>, latest: Option<Role>) returns (err: Err)
    modifies b`failures, b`writes, b`slot
    ensures Counted(err, old(b.failures), b.failures)
    ensures err != Some(Injected) ==> (err.None? <==> desired == latest || old(b.slot) == latest)
    ensures desired == latest ==> err.None? && b.slot == old(b.slot) && b.writes == old(b.writes)
    ensures desired != latest && err.None? ==> b.slot == desired
    ensures err.Some? ==> b.slot == old(b.slot) || b.slot.None?
    ensures err.Some? && b.slot != old(b.slot) ==> err == Some(Injected) && desired.Some?
  {
    if desired.None? {
      if latest.None? {
        return None;
      }
      err := b.RemoveRole(latest.value);
      return;
    }
    if latest.Some? {
      if desired.value == latest.value {
        return None;
      }
      err := b.RemoveRole(latest.value);
      if err.Some? {
        return;
      }
    }
    err := b.AddRole(desired.value);
  }

  /** Deletes the profile; never refused when `role` is what the slot holds. */
  method SdkDelete(b: ProfileBackend, role: Option<Role>) returns (err: Err)
    modifies b`failures, b`writes, b`slot, b`present
    ensures Counted(err, old(b.failures), b.failures)
    ensures err.None? ==> !b.present && b.slot.None?
    ensures old(b.slot) == role ==> err.None? || err == Some(Injected)
  {
    if role.Some? {
      err := b.RemoveRole(role.value);
      if err.Some? {
        return;
      }
    }
    err := b.Delete();
  }
}

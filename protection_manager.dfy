/**
 * The protection manager of Managers/ProtectionManager.php: the claim
 * registry (`$protections`, a PHP array from owner name to claim record),
 * the activity log it writes, and the snapshot of the registry last saved
 * to the claims file. Configuration values and the current time are
 * parameters of the operations that read them.
 */
module Managers {
  import opened Wrappers
  import PhpArray
  import opened Protections
  import opened ActivityLog

  /** Why `createProtection` refused, or that it created the claim. */
  datatype CreateOutcome = AlreadyProtected | TooClose | Created

  class ProtectionManager {
    /** `$protections`: owner name to claim, in insertion order. */
    var protections: Registry
    /** The `logs` array of the log file. */
    var logs: Log
    /** The `protections` array of the claims file as last saved. */
    ghost var saved: Registry

    ghost predicate Valid()
      reads this
    {
      PhpArray.DistinctKeys(protections) && PhpArray.DistinctKeys(logs)
    }

    /** Loads the registry and the log from their stored arrays. */
    constructor (stored: Registry, storedLogs: Log)
      requires PhpArray.DistinctKeys(stored) && PhpArray.DistinctKeys(storedLogs)
      ensures Valid()
      ensures protections == stored && saved == stored && logs == storedLogs
    {
      protections := stored;
      logs := storedLogs;
      saved := stored;
    }

    /** Writes the whole registry to the claims file. */
    method SaveAllProtections()
      modifies this
      ensures saved == protections
      ensures protections == old(protections) && logs == old(logs)
    {
      saved := protections;
    }

    /** `isset($this->protections[$name])`. */
    function HasProtection(name: string): (b: bool)
      reads this
      ensures b <==> GetProtection(name).Some?
      ensures b <==> PhpArray.HasKey(protections, name)
    {
      PhpArray.Get(protections, name).Some?
    }

    /** `$this->protections[$name] ?? null`. */
    function GetProtection(name: string): (r: Option<Claim>)
      reads this
      ensures r.None? <==> !PhpArray.HasKey(protections, name)
      ensures PhpArray.DistinctKeys(protections) ==>
        forall i :: 0 <= i < |protections| && protections[i].0 == name ==> r == Some(protections[i].1)
    {
      PhpArray.Get(protections, name)
    }

    /** The registry in iteration order. */
    function GetAllProtections(): (r: Registry)
      reads this
      requires Valid()
      ensures PhpArray.DistinctKeys(r)
      ensures forall name :: PhpArray.HasKey(r, name) <==> HasProtection(name)
      ensures forall name :: PhpArray.Get(r, name) == GetProtection(name)
    {
      protections
    }

    /** The stored log, oldest entry first. */
    function GetLogs(): (r: Log)
      reads this
      requires Valid()
      ensures PhpArray.DistinctKeys(r)
    {
      logs
    }

    /** The first claim, in insertion order, whose world is `p`'s and whose radius reaches `p`. */
    method GetProtectionAt(p: Position) returns (r: Option<Claim>)
      ensures r == FirstCovering(protections, p)
    {
      var i := 0;
      while i < |protections|
        invariant 0 <= i <= |protections|
        invariant FirstCovering(protections[i..], p) == FirstCovering(protections, p)
      {
        var c := protections[i].1;
        assert protections[i..][1..] == protections[i + 1..];
        if c.world != p.world {
          i := i + 1;
          continue;
        }
        var d2 := DistanceSquared(p.x, p.z, c.x, c.z);
        if WithinRadius(d2, c.radius) {
          return Some(c);
        }
        i := i + 1;
      }
      return None;
    }

    /** No claim in `p`'s world has its centre closer to `p` than `minDistance`. */
    method IsValidLocation(p: Position, minDistance: int) returns (ok: bool)
      ensures ok == LocationFree(protections, p, minDistance)
    {
      var i := 0;
      while i < |protections|
        invariant 0 <= i <= |protections|
        invariant forall j :: 0 <= j < i ==> !TooCloseTo(protections[j].1, p, minDistance)
      {
        var c := protections[i].1;
        if c.world != p.world {
          i := i + 1;
          continue;
        }
        var d2 := DistanceSquared(p.x, p.z, c.x, c.z);
        if CloserThan(d2, minDistance) {
          return false;
        }
        i := i + 1;
      }
      return true;
    }

    /**
     * `createProtection`: refuses an owner who already has a claim, then a
     * centre too close to a claim in the same world; otherwise stores the
     * claim last, saves the registry and logs the creation.
     */
    method CreateProtection(name: string, p: Position, now: int, radius: int, minDistance: int,
                            logsEnabled: bool, maxLogs: int) returns (outcome: CreateOutcome)
      requires Valid()
      modifies this
      ensures Valid()
      ensures old(HasProtection(name)) ==> outcome == AlreadyProtected
      ensures !old(HasProtection(name)) && !LocationFree(old(protections), p, minDistance) ==> outcome == TooClose
      ensures outcome == Created <==> !old(HasProtection(name)) && LocationFree(old(protections), p, minDistance)
      ensures outcome != Created ==>
        protections == old(protections) && logs == old(logs) && saved == old(saved)
      ensures outcome == Created ==>
        var claim := Claim(name, p.world, p.x, p.y, p.z, now, radius);
        && protections == old(protections) + [(name, claim)]
        && GetProtection(name) == Some(claim)
        && saved == protections
        && logs == Record(old(logs), now, LogEntry(ProtectionCreated, name, p.world, p.x, p.y, p.z),
                          logsEnabled, maxLogs)
      ensures Separated(old(protections), minDistance) ==> Separated(protections, minDistance)
    {
      if HasProtection(name) {
        return AlreadyProtected;
      }
      var free := IsValidLocation(p, minDistance);
      if !free {
        return TooClose;
      }
      var claim := Claim(name, p.world, p.x, p.y, p.z, now, radius);
      if Separated(protections, minDistance) {
        CreatePreservesSeparation(protections, name, claim, minDistance);
      }
      PhpArray.SetReadBack(protections, name, claim, name);
      protections := PhpArray.Set(protections, name, claim);
      SaveAllProtections();
      AddLog(ProtectionCreated, name, p, now, logsEnabled, maxLogs);
      return Created;
    }

    /**
     * `removeProtection`: fails when the owner has no claim; otherwise
     * unsets it, saves the registry and logs the removal at the claim's
     * stored centre.
     */
    method RemoveProtection(name: string, now: int, logsEnabled: bool, maxLogs: int) returns (removed: bool)
      requires Valid()
      modifies this
      ensures Valid()
      ensures removed == old(HasProtection(name))
      ensures !removed ==> protections == old(protections) && logs == old(logs) && saved == old(saved)
      ensures removed ==>
        var c := old(GetProtection(name)).value;
        && protections == PhpArray.Unset(old(protections), name)
        && !HasProtection(name)
        && (forall other :: other != name ==> GetProtection(other) == old(GetProtection(other)))
        && saved == protections
        && logs == Record(old(logs), now, LogEntry(ProtectionRemoved, name, c.world, c.x, c.y, c.z),
                          logsEnabled, maxLogs)
      ensures forall minDistance :: Separated(old(protections), minDistance) ==> Separated(protections, minDistance)
    {
      if !HasProtection(name) {
        return false;
      }
      var c := GetProtection(name).value;
      var p := Position(c.world, c.x, c.y, c.z);
      ghost var before := protections;
      protections := PhpArray.Unset(protections, name);
      forall other | other != name
        ensures PhpArray.Get(protections, other) == PhpArray.Get(before, other)
      {
        PhpArray.UnsetKeepsOthers(before, name, other);
      }
      PhpArray.UnsetKeepsOthers(before, name, name);
      forall minDistance | Separated(before, minDistance)
        ensures Separated(protections, minDistance)
      {
        RemovePreservesSeparation(before, name, minDistance);
      }
      SaveAllProtections();
      AddLog(ProtectionRemoved, name, p, now, logsEnabled, maxLogs);
      return true;
    }

    /** `addLog`: writes the event under the current second and trims the log to `maxLogs` entries. */
    method AddLog(action: Action, name: string, p: Position, now: int, enabled: bool, maxLogs: int)
      requires Valid()
      modifies this
      ensures Valid()
      ensures logs == Record(old(logs), now, LogEntry(action, name, p.world, p.x, p.y, p.z), enabled, maxLogs)
      ensures protections == old(protections) && saved == old(saved)
    {
      if !enabled {
        return;
      }
      var l := logs;
      l := PhpArray.Set(l, now, LogEntry(action, name, p.world, p.x, p.y, p.z));
      if |l| > maxLogs {
        l := PhpArray.Slice(l, -maxLogs, None);
      }
      logs := l;
    }
  }
}

/** The device rows over whole runs: what the server knows of a device is what its last contact left. */
module Devices {
  import opened Ops
  import opened SyncState
  import opened SyncRuns

  /** A step that writes or removes the row of a device. */
  predicate Touches(step: Step, s: string) {
    match step
    case Push(site, _, _) => site == s
    case Record(site, _, _, _) => site == s
    case Prune(site) => site == s
    case _ => false
  }

  /** When a contact took place. */
  function ContactAt(step: Step): int
    requires step.Push? || step.Record?
  {
    step.now
  }

  lemma Bystander(reg: Registry, srv: Srv, step: Step, s: string)
    requires !Touches(step, s)
    ensures var before, after := srv.db.cursors, Next(reg, srv, step).db.cursors;
            (s in after <==> s in before) && (s in before ==> after[s] == before[s])
  {
    match step
    case Push(_, ops, _) => AdmitAllFrame(reg, srv.db, ops);
    case Author(ops, now) =>
      if AuthorAll(reg, srv.db, ops, now).Some? {
        AuthorAllFrame(reg, srv.db, ops, now);
      }
    case _ =>
  }

  /** A device that no step names has no row. */
  lemma {:induction false} NeverSeen(reg: Registry, site: string, steps: seq<Step>, s: string)
    requires forall i :: 0 <= i < |steps| ==> !Touches(steps[i], s)
    ensures s !in Run(reg, Start(site), steps).db.cursors
  {
    if steps == [] {
      assert Run(reg, Start(site), steps) == Start(site);
    } else {
      var p := steps[..|steps| - 1];
      NeverSeen(reg, site, p, s);
      Bystander(reg, Run(reg, Start(site), p), steps[|steps| - 1], s);
    }
  }

  /** After its last contact at step i a device is registered with the time of that contact; after a prune it is not. */
  lemma {:induction false} LastContact(reg: Registry, site: string, steps: seq<Step>, s: string, i: nat)
    requires i < |steps| && Touches(steps[i], s) && forall j :: i < j < |steps| ==> !Touches(steps[j], s)
    ensures var cursors := Run(reg, Start(site), steps).db.cursors;
            && (s in cursors <==> !steps[i].Prune?)
            && (s in cursors ==> cursors[s].updatedAt == ContactAt(steps[i]))
            && (steps[i].Record? ==> cursors[s].lastPull == steps[i].lastPull)
  {
    var p := steps[..|steps| - 1];
    if i < |steps| - 1 {
      LastContact(reg, site, p, s, i);
      Bystander(reg, Run(reg, Start(site), p), steps[|steps| - 1], s);
    }
  }

  /**
   Eviction over every run: the device is stale exactly when its last contact is longer ago than the
   horizon, whatever other devices and passes have done since.
   */
  lemma UnseenIsEvicted(reg: Registry, site: string, steps: seq<Step>, s: string, i: nat, now: int, horizon: int)
    requires i < |steps| && Touches(steps[i], s) && forall j :: i < j < |steps| ==> !Touches(steps[j], s)
    ensures var cursors := Run(reg, Start(site), steps).db.cursors;
            s in cursors && now - cursors[s].updatedAt > horizon <==> !steps[i].Prune? && now - ContactAt(steps[i]) > horizon
    ensures forall wm :: (IsWatermark(Run(reg, Start(site), steps).db.cursors, now, horizon, wm)
              && steps[i].Record? && now - ContactAt(steps[i]) <= horizon) ==> wm <= steps[i].lastPull
  {
    LastContact(reg, site, steps, s, i);
  }
}

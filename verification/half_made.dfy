/** A crash at the wrong moment leaves a jail running without its volume for good. */
module HalfMadeJail {
  import opened Text
  import opened Services
  import opened Machine
  import opened Host
  import opened Reconciler
  import Backoff

  const Database := JailSpec("db", "base", [], "10.0.0.2/24", "keel0", "1 cpu, 1G", [VolumeMount("data", "/data", "1G")], RestartAlways, None, true)

  lemma NothingThere(pool: string, s: State, r: Record)
    requires s == State({BaseDataset(pool, "base")}, map[], map[], map[], map[], s.disk) && r.spec == Database
    ensures Clean(pool, s, "db", r) && CanClone(pool, s, "db", r)
  {
    assert |JailDataset(pool, "db")| != |BaseDataset(pool, "base")|;
  }

  lemma HalfMadeIsNotWhole(pool: string, s: State, name: string, r: Record)
    requires HalfMade(pool, s, name, r)
    ensures !Provisioned(pool, s, name, r)
  {
  }

  /** All calls but one succeed; that one falls between the creation of the jail and its first mount. */
  function OneCrash(k: nat): Fate { if k == 5 then Crash else Fine }

  method CrashMidway(pool: string) returns (host: OperatingSystem)
    ensures fresh(host) && host.Ok() && host.pool == pool && host.fates == OneCrash && host.calls > 5
    ensures "db" in host.s.disk && host.s.disk["db"].spec == Database
    ensures HalfMade(pool, host.s, "db", host.s.disk["db"]) && !host.s.jails[JailName("db")].running
  {
    hide Clean, CanClone, Covered, OnlyTouches, Provisioned, Running, Furnished, Mendable, InPace, BaseDataset, Targets;
    host := new OperatingSystem(pool, {BaseDataset(pool, "base")}, OneCrash);
    var daemon := new NodeReconciler(host);
    var applied := daemon.Apply(Database);
    ghost var s0, r := host.s, host.s.disk["db"];
    NothingThere(pool, host.s, r);
    var crashed, _, _, _ := daemon.ReconcileOne("db", 0);
    NodeReconciler.TouchedDisk(pool, s0, host.s, "db", r);
    assert crashed.Crashed? && !host.Smooth(1);
  }

  /**
    * The daemon crashes right after creating a jail and is started again. The next attempt succeeds and the jail runs,
    * but without its volume, and no number of further passes, at any times, mounts it.
    */
  method HalfMadeForGood(pool: string, later: nat, ticks: seq<nat>) returns (host: OperatingSystem, res: Reply)
    ensures host.Ok() && host.pool == pool && host.fates == OneCrash
    ensures "db" in host.s.disk && host.s.disk["db"].spec == Database
    ensures res.Done? && (ticks == [] ==> Running(pool, host.s, "db", host.s.disk["db"]))
    ensures HalfMade(pool, host.s, "db", host.s.disk["db"]) && !Provisioned(pool, host.s, "db", host.s.disk["db"])
  {
    hide Clean, CanClone, Covered, OnlyTouches, Provisioned, Running, Furnished, Mendable, InPace, IsVolume, Targets, Waiting, Backoff.Attempted;
    host := CrashMidway(pool);
    var daemon := new NodeReconciler(host);
    ghost var s1, r := host.s, host.s.disk["db"];
    var attempted, rolledBack, from;
    res, attempted, rolledBack, from := daemon.ReconcileOne("db", later);
    NodeReconciler.TouchedDisk(pool, s1, host.s, "db", r);
    for i := 0 to |ticks|
      invariant daemon.host == host && daemon.Valid() && host.calls > 5 && res.Done?
      invariant "db" in host.s.disk && host.s.disk["db"] == r && HalfMade(pool, host.s, "db", r)
      invariant i == 0 ==> Running(pool, host.s, "db", r)
    {
      res := daemon.Reconcile(ticks[i]);
    }
    HalfMadeIsNotWhole(pool, host.s, "db", r);
  }
}

/** The node reconciler: desired jails on disk, provisioning with rollback, deletion, and restarts of the daemon. */
module Reconciler {
  import opened Text
  import opened Services
  import opened Machine
  import opened Host
  import opened Environment
  import Backoff

  /** The jail exists and has its root, its declared mounts and their volumes. */
  predicate Furnished(pool: string, s: State, name: string, r: Record) {
    && JailName(name) in s.jails
    && JailDataset(pool, name) in s.datasets
    && Targets(pool, name, r) <= s.mounts.Keys
    && forall v | v in r.spec.volumes :: VolumeDataset(pool, v.name) in s.datasets
  }

  /** The jail is running the record's command on its root, with the record's limits and its network pair attached. */
  predicate Running(pool: string, s: State, name: string, r: Record) {
    && JailName(name) in s.jails && s.jails[JailName(name)] == Jail(Rootfs(pool, name), true, r.spec.command)
    && JailName(name) in s.limits && s.limits[JailName(name)] == r.spec.resources
    && Attached(s, name, r)
  }

  predicate Attached(s: State, name: string, r: Record) {
    EpairBase(r.ordinal) in s.epairs && s.epairs[EpairBase(r.ordinal)] == Link(JailName(name), r.spec.bridge, r.spec.address)
  }

  predicate Provisioned(pool: string, s: State, name: string, r: Record) {
    Furnished(pool, s, name, r) && Running(pool, s, name, r)
  }

  /** A jail that exists without all of its declared mounts. */
  predicate HalfMade(pool: string, s: State, name: string, r: Record) {
    JailName(name) in s.jails && !(Targets(pool, name, r) <= s.mounts.Keys)
  }

  /** A jail that has stopped and is not to be started again. */
  predicate Parked(s: State, name: string, r: Record) {
    JailName(name) in s.jails && !s.jails[JailName(name)].running && r.spec.restart.RestartNever?
  }

  predicate CanClone(pool: string, s: State, name: string, r: Record) {
    BaseDataset(pool, r.spec.image) in s.datasets && JailDataset(pool, name) !in s.datasets
  }

  /**
    * What one attempt can complete: no jail and a base image to clone that is no jail's root, or a furnished jail that
    * may be restarted, or one that already runs its command with its network pair.
    */
  ghost predicate Mendable(pool: string, s: State, name: string, r: Record) {
    if JailName(name) !in s.jails then
      CanClone(pool, s, name, r) && !RootCovered(pool, s.disk, BaseDataset(pool, r.spec.image))
    else
      && Furnished(pool, s, name, r) && s.jails[JailName(name)].rootfs == Rootfs(pool, name)
      && if s.jails[JailName(name)].running then s.jails[JailName(name)].command == r.spec.command && Attached(s, name, r)
         else !r.spec.restart.RestartNever?
  }

  /** A restart touches neither datasets nor mounts, so it completes exactly the jails that were furnished. */
  lemma RestartedIff(pool: string, before: State, after: State, name: string, r: Record)
    requires JailName(name) in before.jails && after.mounts == before.mounts && after.datasets == before.datasets
    requires Running(pool, after, name, r)
    ensures Provisioned(pool, after, name, r) <==> Furnished(pool, before, name, r)
  {
  }

  /** Every back-off in the table is what the attempts made since start-up have left. */
  ghost predicate InPace(backoff: map<string, Backoff.State>, attempts: map<string, seq<nat>>) {
    backoff.Keys == attempts.Keys && forall n | n in backoff :: Backoff.Paced(backoff[n], attempts[n])
  }

  /** An error passed on; only a crash stays a crash. */
  function Err(r: Reply): Reply { if r.Crashed? then Crashed else Failed }

  function Cut(a: Answer): Reply { if a.CutOff? then Crashed else Failed }

  /** What an apply accepts: a well-formed spec, and for a known name the same image, address and volumes. */
  predicate Acceptable(records: map<string, Record>, spec: JailSpec) {
    && ValidName(spec.name) && spec.parses
    && (spec.name in records ==>
          && records[spec.name].spec.image == spec.image
          && records[spec.name].spec.address == spec.address
          && records[spec.name].spec.volumes == spec.volumes)
  }

  lemma LinkConnects(name: string, r: Record)
    ensures Connects(name, r, Link(JailName(name), r.spec.bridge, r.spec.address))
  {
  }

  lemma VolumeIsVolume(pool: string, v: string)
    ensures IsVolume(pool, VolumeDataset(pool, v))
  {
  }

  lemma ForgetKeepsPace(backoff: map<string, Backoff.State>, attempts: map<string, seq<nat>>, name: string)
    requires InPace(backoff, attempts)
    ensures InPace(backoff - {name}, attempts - {name})
  {
    hide Backoff.Paced;
  }

  class NodeReconciler {
    const host: OperatingSystem
    var records: map<string, Record>
    var backoff: map<string, Backoff.State>
    var nextEpairOrdinal: nat
    /** The times at which each jail has been attempted since start-up. */
    ghost var attempts: map<string, seq<nat>>

    /**
      * What is remembered is what is on disk, the next ordinal is above every one in use, and no jail has been
      * attempted before its back-off allowed it.
      */
    ghost predicate Valid()
      reads this, host
    {
      && host.Ok() && records == host.s.disk
      && (forall n | n in records :: records[n].ordinal < nextEpairOrdinal)
      && InPace(backoff, attempts)
    }

    /** Start-up after a clean exit or a crash: everything is reloaded from disk. */
    constructor (os: OperatingSystem)
      requires os.Ok()
      ensures Valid() && host == os && backoff == map[]
    {
      host := os;
      records := os.s.disk;
      backoff, attempts := map[], map[];
      var next, todo := 1, os.s.disk.Keys;
      while todo != {}
        invariant todo <= os.s.disk.Keys && next >= 1
        invariant forall n | n in os.s.disk && n !in todo :: os.s.disk[n].ordinal < next
        decreases |todo|
      {
        var n :| n in todo;
        todo := todo - {n};
        if os.s.disk[n].ordinal >= next { next := os.s.disk[n].ordinal + 1; }
      }
      nextEpairOrdinal := next;
    }

    // ---------- desired state ----------

    /** Validates, assigns an ordinal to a new name, saves, and only then remembers. */
    method Apply(spec: JailSpec) returns (r: Reply)
      requires Valid()
      modifies this, host
      ensures host.Ok() && (!r.Crashed? ==> Valid())
      ensures r.Done? ==> spec.name in host.s.disk && host.s.disk[spec.name].spec == spec
      ensures !r.Done? ==> host.s == old(host.s)
      ensures r.Done? ==> Acceptable(old(records), spec)
      ensures !Acceptable(old(records), spec) ==> r.Failed? && host.calls == old(host.calls)
      ensures Acceptable(old(records), spec) && host.fates(old(host.calls)).Fine? ==> r.Done? && host.calls == old(host.calls) + 1
      ensures backoff == old(backoff)
      ensures spec.name !in old(records) && r.Done? ==> host.s.disk[spec.name].ordinal == old(nextEpairOrdinal)
      ensures host.s == old(host.s).(disk := host.s.disk)
      ensures forall n | n in old(host.s.disk) ::
                n in host.s.disk && host.s.disk[n].ordinal == old(host.s.disk)[n].ordinal
                && host.s.disk[n].spec.volumes == old(host.s.disk)[n].spec.volumes
    {
      hide Covered, InPace;
      if !ValidName(spec.name) || !spec.parses { return Failed; }
      var ordinal;
      if spec.name in records {
        if !ValidTransition(records[spec.name].spec, spec) { return Failed; }
        ordinal := records[spec.name].ordinal;
      } else {
        ordinal := nextEpairOrdinal;
        nextEpairOrdinal := nextEpairOrdinal + 1;
      }
      var record := Record(spec, ordinal);
      SaveKeepsCovered(host.pool, host.foreign, host.s, record);
      r := host.Commit(host.s.disk[spec.name := record]);
      if r.Done? { records := records[spec.name := record]; }
    }

    method SetReplicateTo(name: string, to: Option<string>) returns (r: Reply)
      requires Valid()
      modifies this, host
      ensures host.Ok() && (!r.Crashed? ==> Valid())
      ensures r.Done? ==> name in old(records) && host.s == old(host.s).(disk :=
                old(records)[name := old(records)[name].(spec := old(records)[name].spec.(replicateTo := to))])
      ensures !r.Done? ==> host.s == old(host.s)
    {
      hide InPace;
      if name !in records { return NotFound; }
      var record := records[name].(spec := records[name].spec.(replicateTo := to));
      SaveKeepsCovered(host.pool, host.foreign, host.s, record);
      r := host.Commit(host.s.disk[name := record]);
      if r.Done? { records := records[name := record]; }
    }

    // ---------- provisioning ----------

    /** A declared volume's dataset, made if it is new. */
    method EnsureVolume(name: string, r: Record, v: VolumeMount) returns (res: Reply)
      requires host.Ok() && name in host.s.disk && host.s.disk[name] == r
      modifies host
      ensures host.Ok() && OnlyTouches(host.pool, old(host.s), host.s, name, r)
      ensures host.calls >= old(host.calls)
      ensures host.s == old(host.s).(datasets := host.s.datasets) && old(host.s.datasets) <= host.s.datasets
      ensures res.Done? ==> VolumeDataset(host.pool, v.name) in host.s.datasets
      ensures res.Done? || res.Failed? || res.Crashed?
      ensures host.Smooth(old(host.calls)) ==> res.Done?
    {
      hide JailName, JailDataset, EpairBase, Target, Targets, IsVolume, VolumeDataset, Rootfs, Covered, OnlyTouches, Declares, Connects;
      ghost var s0 := host.s;
      TouchesNothing(host.pool, host.foreign, s0, name);
      var dataset := VolumeDataset(host.pool, v.name);
      var present := host.Ask(dataset in host.s.datasets);
      if present.Unanswered? || present.CutOff? { return Cut(present); }
      if present.No? {
        TouchesVolume(host.pool, host.foreign, s0, name, v);
        var made := host.Invoke(CreateVolume(host.s, dataset));
        Passed(s0, s0, name);
        if !made.Done? { return Err(made); }
      }
      res := Done;
    }

    /** A declared volume's mount, made if it is missing. */
    method EnsureMount(name: string, r: Record, v: VolumeMount) returns (res: Reply)
      requires host.Ok() && name in host.s.disk && host.s.disk[name] == r && v in r.spec.volumes
      modifies host
      ensures host.Ok() && OnlyTouches(host.pool, old(host.s), host.s, name, r)
      ensures host.calls >= old(host.calls)
      ensures host.s == old(host.s).(mounts := host.s.mounts) && old(host.s.mounts.Keys) <= host.s.mounts.Keys
      ensures res.Done? ==> Target(host.pool, name, v) in host.s.mounts
      ensures res.Done? || res.Failed? || res.Crashed?
      ensures host.Smooth(old(host.calls)) ==> res.Done?
    {
      hide JailName, JailDataset, EpairBase, Target, Targets, IsVolume, VolumeDataset, Rootfs, Covered, OnlyTouches, Declares, Connects;
      ghost var s0 := host.s;
      TouchesNothing(host.pool, host.foreign, s0, name);
      var dataset, target := VolumeDataset(host.pool, v.name), Target(host.pool, name, v);
      var mounted := host.Ask(target in host.s.mounts);
      if mounted.Unanswered? || mounted.CutOff? { return Cut(mounted); }
      if mounted.No? {
        TouchesMount(host.pool, host.foreign, s0, name, v);
        var made := host.Invoke(MountVolume(host.s, dataset, target));
        Passed(s0, s0, name);
        if !made.Done? { return Err(made); }
      }
      res := Done;
    }

    /** One declared volume: its mount point, its dataset if it is new, its mount if it is missing. */
    method MountOne(name: string, r: Record, v: VolumeMount) returns (res: Reply)
      requires host.Ok() && name in host.s.disk && host.s.disk[name] == r && v in r.spec.volumes
      modifies host
      ensures host.Ok() && OnlyTouches(host.pool, old(host.s), host.s, name, r)
      ensures host.calls >= old(host.calls)
      ensures host.s == old(host.s).(datasets := host.s.datasets, mounts := host.s.mounts)
      ensures old(host.s.datasets) <= host.s.datasets && old(host.s.mounts.Keys) <= host.s.mounts.Keys
      ensures res.Done? ==> Target(host.pool, name, v) in host.s.mounts && VolumeDataset(host.pool, v.name) in host.s.datasets
      ensures res.Done? || res.Failed? || res.Crashed?
      ensures host.Smooth(old(host.calls)) ==> res.Done?
      ensures host.fates(old(host.calls)).Crash? ==> res.Crashed? && host.s == old(host.s)
    {
      hide JailName, JailDataset, EpairBase, Target, Targets, IsVolume, VolumeDataset, Rootfs, Covered, OnlyTouches, Declares, Connects;
      ghost var s0 := host.s;
      TouchesNothing(host.pool, host.foreign, s0, name);
      var point := host.Invoke(Prepare(host.s));
      if !point.Done? { return Err(point); }
      res := EnsureVolume(name, r, v);
      if !res.Done? { return; }
      ghost var s1 := host.s;
      res := EnsureMount(name, r, v);
      Passed(s0, s1, name);
    }

    method MountVolumes(name: string, r: Record) returns (res: Reply)
      requires host.Ok() && name in host.s.disk && host.s.disk[name] == r
      modifies host
      ensures OnlyTouches(host.pool, old(host.s), host.s, name, r)
      ensures host.calls >= old(host.calls)
      ensures host.s == old(host.s).(datasets := host.s.datasets, mounts := host.s.mounts)
      ensures old(host.s.datasets) <= host.s.datasets
      ensures res.Done? ==> Targets(host.pool, name, r) <= host.s.mounts.Keys &&
                            forall v | v in r.spec.volumes :: VolumeDataset(host.pool, v.name) in host.s.datasets
      ensures res.Done? || res.Failed? || res.Crashed?
      ensures host.Smooth(old(host.calls)) ==> res.Done?
      ensures r.spec.volumes != [] && host.fates(old(host.calls)).Crash? ==> res.Crashed? && host.s == old(host.s)
    {
      hide JailName, JailDataset, EpairBase, Target, IsVolume, VolumeDataset, Rootfs, Covered, OnlyTouches;
      TouchesNothing(host.pool, host.foreign, host.s, name);
      for i := 0 to |r.spec.volumes|
        invariant host.Ok() && host.calls >= old(host.calls)
        invariant i == 0 ==> host.s == old(host.s) && host.calls == old(host.calls)
        invariant i > 0 ==> !host.fates(old(host.calls)).Crash?
        invariant host.s == old(host.s).(datasets := host.s.datasets, mounts := host.s.mounts)
        invariant old(host.s.datasets) <= host.s.datasets
        invariant OnlyTouches(host.pool, old(host.s), host.s, name, r)
        invariant forall k | 0 <= k < i :: Target(host.pool, name, r.spec.volumes[k]) in host.s.mounts
                                           && VolumeDataset(host.pool, r.spec.volumes[k].name) in host.s.datasets
      {
        ghost var mid := host.s;
        res := MountOne(name, r, r.spec.volumes[i]);
        TouchesCompose(host.pool, old(host.s), mid, host.s, name, r);
        TouchKeepsCovered(host.pool, host.foreign, old(host.s), host.s, name);
        if !res.Done? { return; }
      }
      res := Done;
    }

    method ConfigureNetworkingAndLimits(name: string, r: Record) returns (res: Reply)
      requires host.Ok() && name in host.s.disk && host.s.disk[name] == r
      modifies host
      ensures OnlyTouches(host.pool, old(host.s), host.s, name, r)
      ensures host.calls >= old(host.calls)
      ensures host.s == old(host.s).(epairs := host.s.epairs, limits := host.s.limits)
      ensures res.Done? ==> Attached(host.s, name, r)
                            && JailName(name) in host.s.limits && host.s.limits[JailName(name)] == r.spec.resources
      ensures res.Done? || res.Failed? || res.Crashed?
      ensures host.Smooth(old(host.calls)) ==> !res.Crashed?
      ensures JailName(name) in host.s.jails && host.Smooth(old(host.calls)) ==> res.Done?
    {
      hide JailName, JailDataset, EpairBase, Target, Targets, IsVolume, VolumeDataset, Rootfs, Covered, OnlyTouches, Declares, Connects;
      var link := Link(JailName(name), r.spec.bridge, r.spec.address);
      ghost var s0 := host.s;
      TouchesNothing(host.pool, host.foreign, s0, name);
      var bridge := host.Invoke(Prepare(host.s));
      if !bridge.Done? { return Err(bridge); }
      assert Connects(name, r, link) by { LinkConnects(name, r); }
      TouchesLink(host.pool, host.foreign, host.s, name, link);
      var attached := host.Invoke(AttachJail(host.s, EpairBase(r.ordinal), link));
      Passed(s0, s0, name);
      if !attached.Done? { return Err(attached); }
      ghost var s1 := host.s;
      TouchesLimits(host.pool, host.foreign, s1, name, r.spec.resources);
      TouchesNothing(host.pool, host.foreign, s1, name);
      var limited := host.Invoke(SetLimits(host.s, JailName(name), r.spec.resources));
      Passed(s0, s1, name);
      if !limited.Done? { return Err(limited); }
      res := Done;
    }

    /** Clones the root and creates the jail on it. */
    method CreateRoot(name: string, r: Record) returns (res: Reply)
      requires host.Ok() && name in host.s.disk && host.s.disk[name] == r
      modifies host
      ensures OnlyTouches(host.pool, old(host.s), host.s, name, r)
      ensures host.calls >= old(host.calls)
      ensures host.s == old(host.s).(datasets := host.s.datasets, jails := host.s.jails)
      ensures host.s.jails == old(host.s.jails) || (JailName(name) in host.s.jails && !host.s.jails[JailName(name)].running)
      ensures res.Done? ==> JailDataset(host.pool, name) in host.s.datasets
                            && JailName(name) in host.s.jails && !host.s.jails[JailName(name)].running
      ensures res.Done? || res.Failed? || res.Crashed?
      ensures host.Smooth(old(host.calls)) ==> !res.Crashed?
      ensures host.Smooth(old(host.calls)) ==> (res.Done? <==> CanClone(host.pool, old(host.s), name, r))
      ensures host.calls <= old(host.calls) + 3 && (res.Done? ==> host.calls == old(host.calls) + 3)
    {
      hide BaseDataset, JailName, JailDataset, EpairBase, Target, Targets, IsVolume, VolumeDataset, Rootfs, Covered, OnlyTouches, Declares, Connects;
      var base, dataset := BaseDataset(host.pool, r.spec.image), JailDataset(host.pool, name);
      ghost var s0 := host.s;
      TouchesNothing(host.pool, host.foreign, s0, name);
      var known := host.Ask(base in host.s.datasets);
      if !known.Yes? { return Cut(known); }
      TouchesRoot(host.pool, host.foreign, s0, name, s0.datasets + {dataset});
      var cloned := host.Invoke(CloneFromBase(host.s, base, dataset));
      Passed(s0, s0, name);
      if !cloned.Done? { return Err(cloned); }
      ghost var s1 := host.s;
      TouchesJail(host.pool, host.foreign, s1, name, s1.jails[JailName(name) := Jail(Rootfs(host.pool, name), false, [])]);
      TouchesNothing(host.pool, host.foreign, s1, name);
      var created := host.Invoke(CreateJail(host.s, JailName(name), Rootfs(host.pool, name)));
      Passed(s0, s1, name);
      if !created.Done? { return Err(created); }
      res := Done;
    }

    method Start(name: string, r: Record) returns (res: Reply)
      requires host.Ok() && name in host.s.disk && host.s.disk[name] == r
      modifies host
      ensures OnlyTouches(host.pool, old(host.s), host.s, name, r)
      ensures host.calls >= old(host.calls)
      ensures host.s == old(host.s).(jails := host.s.jails)
      ensures JailName(name) in host.s.jails <==> JailName(name) in old(host.s.jails)
      ensures host.s.jails == old(host.s.jails) ||
              (JailName(name) in host.s.jails && host.s.jails[JailName(name)] == Jail(Rootfs(host.pool, name), true, r.spec.command))
      ensures res.Done? ==> JailName(name) in host.s.jails && host.s.jails[JailName(name)] == Jail(Rootfs(host.pool, name), true, r.spec.command)
      ensures res.Done? || res.Failed? || res.Crashed?
      ensures host.Smooth(old(host.calls)) ==> !res.Crashed?
      ensures JailName(name) in old(host.s.jails) && host.Smooth(old(host.calls)) ==> res.Done?
    {
      hide JailName, JailDataset, EpairBase, Target, Targets, IsVolume, VolumeDataset, Rootfs, Covered, OnlyTouches, Declares, Connects;
      ghost var s0 := host.s;
      TouchesNothing(host.pool, host.foreign, s0, name);
      if JailName(name) in s0.jails {
        OwnRoot(host.pool, host.foreign, s0, name);
        TouchesJail(host.pool, host.foreign, s0, name, s0.jails[JailName(name) := Jail(Rootfs(host.pool, name), true, r.spec.command)]);
      }
      var started := host.Invoke(StartCommand(host.s, JailName(name), r.spec.command));
      if !started.Done? { return Err(started); }
      res := Done;
    }

    /**
      * Whichever step fails, only this record's resources have been touched. With no call going wrong it succeeds
      * exactly when the base image is there and the root is not. The command is not started before all the rest is in
      * place; a crash right after the jail was created leaves it without its mounts.
      */
    method Provision(name: string, r: Record) returns (res: Reply)
      requires host.Ok() && name in host.s.disk && host.s.disk[name] == r
      modifies host
      ensures host.Ok() && OnlyTouches(host.pool, old(host.s), host.s, name, r)
      ensures host.calls >= old(host.calls)
      ensures res.Done? ==> Provisioned(host.pool, host.s, name, r)
      ensures res.Done? || res.Failed? || res.Crashed?
      ensures host.Smooth(old(host.calls)) ==> !res.Crashed?
      ensures host.Smooth(old(host.calls)) ==> (res.Done? <==> CanClone(host.pool, old(host.s), name, r))
      ensures JailName(name) in host.s.jails && host.s.jails[JailName(name)].running ==>
                Provisioned(host.pool, host.s, name, r) || (JailName(name) in old(host.s.jails) && old(host.s.jails)[JailName(name)].running)
      ensures CanClone(host.pool, old(host.s), name, r) && r.spec.volumes != [] && host.CrashesAfter(old(host.calls), 3) ==>
                && res.Crashed? && host.s.mounts == old(host.s.mounts)
                && JailName(name) in host.s.jails && !host.s.jails[JailName(name)].running
    {
      hide JailName, JailDataset, BaseDataset, EpairBase, Targets, IsVolume, Rootfs, Covered, OnlyTouches, VolumeDataset, CanClone;
      ghost var s0 := host.s;
      res := CreateRoot(name, r);
      Passed(s0, s0, name);
      if !res.Done? { return; }
      ghost var s1 := host.s;
      res := MountVolumes(name, r);
      Passed(s0, s1, name);
      if !res.Done? { return; }
      ghost var s2 := host.s;
      res := ConfigureNetworkingAndLimits(name, r);
      Passed(s0, s2, name);
      if !res.Done? { return; }
      ghost var s3 := host.s;
      res := Start(name, r);
      Passed(s0, s3, name);
    }

    /** A stage that only touched this record's resources, after others that did the same. */
    lemma Passed(before: State, mid: State, name: string)
      requires Covered(host.pool, host.foreign, before) && name in before.disk
      requires mid == before || OnlyTouches(host.pool, before, mid, name, before.disk[name])
      requires OnlyTouches(host.pool, mid, host.s, name, before.disk[name])
      ensures host.Ok() && OnlyTouches(host.pool, before, host.s, name, before.disk[name])
    {
      hide OnlyTouches, Covered;
      if mid != before { TouchesCompose(host.pool, before, mid, host.s, name, before.disk[name]); }
      TouchKeepsCovered(host.pool, host.foreign, before, host.s, name);
    }

    /** Brings an existing jail back up: done means it is running, limited and attached, on the root and mounts it had. */
    method Restart(name: string, r: Record) returns (res: Reply)
      requires host.Ok() && name in host.s.disk && host.s.disk[name] == r
      modifies host
      ensures host.Ok() && OnlyTouches(host.pool, old(host.s), host.s, name, r)
      ensures host.calls >= old(host.calls)
      ensures host.s.mounts == old(host.s.mounts) && host.s.datasets == old(host.s.datasets)
      ensures JailName(name) in host.s.jails <==> JailName(name) in old(host.s.jails)
      ensures res.Done? ==> Running(host.pool, host.s, name, r)
      ensures res.Done? || res.Failed? || res.Crashed?
      ensures host.Smooth(old(host.calls)) ==> !res.Crashed?
      ensures JailName(name) in old(host.s.jails) && host.Smooth(old(host.calls)) ==> res.Done?
    {
      hide JailName, JailDataset, EpairBase, Targets, IsVolume, Rootfs, Covered, OnlyTouches;
      ghost var s0 := host.s;
      res := ConfigureNetworkingAndLimits(name, r);
      Passed(s0, s0, name);
      if !res.Done? { return; }
      ghost var s1 := host.s;
      res := Start(name, r);
      Passed(s0, s1, name);
    }

    // ---------- taking a jail apart ----------

    /** Unmounts every declared volume. A target that is not mounted is as good as unmounted; `strict` stops at real errors. */
    method UnmountVolumes(name: string, r: Record, strict: bool) returns (res: Reply)
      requires host.Ok() && name in host.s.disk && host.s.disk[name] == r
      modifies host
      ensures host.calls >= old(host.calls)
      ensures host.s == old(host.s).(mounts := host.s.mounts)
      ensures OnlyTouches(host.pool, old(host.s), host.s, name, r)
      ensures res.Done? && strict ==> Targets(host.pool, name, r) !! host.s.mounts.Keys
      ensures host.Smooth(old(host.calls)) ==> res.Done? && Targets(host.pool, name, r) !! host.s.mounts.Keys
      ensures res.Done? || res.Failed? || res.Crashed?
      ensures !strict ==> !res.Failed?
    {
      hide JailName, JailDataset, EpairBase, Target, IsVolume, VolumeDataset, Rootfs, Covered, OnlyTouches, Declares, Connects;
      ghost var s0 := host.s;
      TouchesNothing(host.pool, host.foreign, s0, name);
      for i := 0 to |r.spec.volumes|
        invariant host.Ok() && host.calls >= old(host.calls)
        invariant host.s == old(host.s).(mounts := host.s.mounts) && OnlyTouches(host.pool, s0, host.s, name, r)
        invariant strict || host.Smooth(old(host.calls)) ==>
                    forall k | 0 <= k < i :: Target(host.pool, name, r.spec.volumes[k]) !in host.s.mounts
      {
        var target := Target(host.pool, name, r.spec.volumes[i]);
        ghost var s1 := host.s;
        TouchesMount(host.pool, host.foreign, s1, name, r.spec.volumes[i]);
        TouchesNothing(host.pool, host.foreign, s1, name);
        var gone := host.Invoke(Unmount(host.s, target));
        Passed(s0, s1, name);
        if gone.Crashed? || (strict && gone.Failed?) { return Err(gone); }
      }
      res := Done;
    }

    /** Detaches the network pair and destroys the jail. */
    method StopJail(name: string, r: Record, strict: bool) returns (res: Reply)
      requires host.Ok() && name in host.s.disk && host.s.disk[name] == r
      modifies host
      ensures host.calls >= old(host.calls)
      ensures host.s == old(host.s).(epairs := host.s.epairs, jails := host.s.jails)
      ensures OnlyTouches(host.pool, old(host.s), host.s, name, r)
      ensures res.Done? && strict ==> EpairBase(r.ordinal) !in host.s.epairs && JailName(name) !in host.s.jails
      ensures host.Smooth(old(host.calls)) ==>
                res.Done? && EpairBase(r.ordinal) !in host.s.epairs && JailName(name) !in host.s.jails
      ensures res.Done? || res.Failed? || res.Crashed?
      ensures !strict ==> !res.Failed?
    {
      hide JailName, JailDataset, EpairBase, Target, Targets, IsVolume, VolumeDataset, Rootfs, Covered, OnlyTouches, Declares, Connects;
      ghost var s0 := host.s;
      TouchesNothing(host.pool, host.foreign, s0, name);
      ghost var link := Link(JailName(name), r.spec.bridge, r.spec.address);
      assert Connects(name, r, link) by { LinkConnects(name, r); }
      TouchesLink(host.pool, host.foreign, s0, name, link);
      var detached := host.Invoke(DetachJail(host.s, EpairBase(r.ordinal)));
      Passed(s0, s0, name);
      if detached.Crashed? || (strict && !detached.Done?) { return Err(detached); }
      ghost var s1 := host.s;
      TouchesJail(host.pool, host.foreign, s1, name, s1.jails - {JailName(name)});
      TouchesNothing(host.pool, host.foreign, s1, name);
      var destroyed := host.Invoke(DestroyJail(host.s, JailName(name)));
      Passed(s0, s1, name);
      if destroyed.Crashed? || (strict && destroyed.Failed?) { return Err(destroyed); }
      res := Done;
    }

    /** Destroys the root dataset, which must not be busy any more, and drops the limits. Volume datasets stay. */
    method DropRoot(name: string, r: Record, strict: bool) returns (res: Reply)
      requires host.Ok() && name in host.s.disk && host.s.disk[name] == r
      modifies host
      ensures host.calls >= old(host.calls)
      ensures host.s == old(host.s).(datasets := host.s.datasets, limits := host.s.limits)
      ensures OnlyTouches(host.pool, old(host.s), host.s, name, r)
      ensures res.Done? && strict ==> JailDataset(host.pool, name) !in host.s.datasets && JailName(name) !in host.s.limits
      ensures !Busy(old(host.s), JailDataset(host.pool, name)) && host.Smooth(old(host.calls)) ==>
                res.Done? && JailDataset(host.pool, name) !in host.s.datasets && JailName(name) !in host.s.limits
      ensures res.Done? || res.Failed? || res.Crashed?
      ensures !strict ==> !res.Failed?
    {
      hide Busy, JailName, JailDataset, EpairBase, Target, Targets, IsVolume, VolumeDataset, Rootfs, Covered, OnlyTouches, Declares, Connects;
      ghost var s0 := host.s;
      TouchesNothing(host.pool, host.foreign, s0, name);
      TouchesRoot(host.pool, host.foreign, s0, name, s0.datasets - {JailDataset(host.pool, name)});
      var destroyed := host.Invoke(DestroyDataset(host.s, JailDataset(host.pool, name)));
      Passed(s0, s0, name);
      if destroyed.Crashed? || (strict && destroyed.Failed?) { return Err(destroyed); }
      ghost var s1 := host.s;
      TouchesLimits(host.pool, host.foreign, s1, name, "");
      TouchesNothing(host.pool, host.foreign, s1, name);
      var limits := host.Invoke(RemoveLimits(host.s, JailName(name)));
      Passed(s0, s1, name);
      if limits.Crashed? || (strict && limits.Failed?) { return Err(limits); }
      res := Done;
    }

    /** The three stages of taking a jail apart, in the order that leaves no mount on top of the root. */
    method TakeApart(name: string, r: Record, strict: bool) returns (res: Reply)
      requires host.Ok() && name in host.s.disk && host.s.disk[name] == r
      modifies host
      ensures host.Ok() && OnlyTouches(host.pool, old(host.s), host.s, name, r)
      ensures host.calls >= old(host.calls)
      ensures res.Done? && strict ==> Clean(host.pool, host.s, name, r)
      ensures host.Smooth(old(host.calls)) ==> res.Done? && Clean(host.pool, host.s, name, r)
      ensures res.Done? || res.Failed? || res.Crashed?
      ensures !strict ==> !res.Failed?
    {
      hide JailName, JailDataset, EpairBase, Targets, IsVolume, Rootfs, Covered, OnlyTouches, Busy;
      ghost var s0 := host.s;
      res := StopJail(name, r, strict);
      Passed(s0, s0, name);
      if !res.Done? { return; }
      ghost var s1 := host.s;
      res := UnmountVolumes(name, r, strict);
      Passed(s0, s1, name);
      if !res.Done? { return; }
      ghost var s2 := host.s;
      if JailName(name) !in host.s.jails && Targets(host.pool, name, r) !! host.s.mounts.Keys {
        NotBusyOnceUnmounted(host.pool, host.foreign, host.s, name);
      }
      res := DropRoot(name, r, strict);
      Passed(s0, s2, name);
    }

    /** Best-effort cleanup after a failed provision; if its own calls go well, nothing of the jail is left. */
    method RollbackProvision(name: string, r: Record) returns (crashed: bool)
      requires host.Ok() && name in host.s.disk && host.s.disk[name] == r
      modifies host
      ensures host.Ok() && OnlyTouches(host.pool, old(host.s), host.s, name, r)
      ensures host.calls >= old(host.calls)
      ensures host.Smooth(old(host.calls)) ==> !crashed && Clean(host.pool, host.s, name, r)
    {
      var res := TakeApart(name, r, false);
      crashed := res.Crashed?;
    }

    /** Deletes a jail. Success means nothing of it is left; failure means its record still is. */
    method Delete(name: string) returns (res: Reply)
      requires Valid()
      modifies this, host
      ensures host.Ok() && (!res.Crashed? ==> Valid())
      ensures name !in old(records) ==> res.NotFound? && host.s == old(host.s)
      ensures name in old(records) ==>
                && OnlyTouches(host.pool, old(host.s), host.s.(disk := old(host.s.disk)), name, old(records)[name])
                && (res.Done? ==> host.s.disk == old(host.s.disk) - {name} && Clean(host.pool, host.s, name, old(records)[name]))
                && (!res.Done? ==> host.s.disk == old(host.s.disk))
                && (host.Smooth(old(host.calls)) ==> res.Done?)
                && (res.Done? ==> BackoffOf(name) == Backoff.Fresh && AttemptsOf(name) == [])
      ensures forall n | n != name || !res.Done? :: BackoffOf(n) == old(BackoffOf(n)) && AttemptsOf(n) == old(AttemptsOf(n))
    {
      hide Clean, Covered, OnlyTouches, InPace;
      if name !in records { return NotFound; }
      var r := records[name];
      res := TakeApart(name, r, true);
      if !res.Done? {
        TouchedDisk(host.pool, old(host.s), host.s, name, r);
        return;
      }
      TouchedDisk(host.pool, old(host.s), host.s, name, r);
      RemoveKeepsCovered(host.pool, host.foreign, host.s, name);
      ghost var s1 := host.s;
      res := host.Commit(host.s.disk - {name});
      if res.Done? {
        records := records - {name};
        ForgetKeepsPace(backoff, attempts, name);
        backoff, attempts := backoff - {name}, attempts - {name};
        StillClean(host.pool, s1, host.s, name, r);
      }
      assert host.s.(disk := old(host.s.disk)) == s1;
    }

    static lemma TouchedDisk(pool: string, before: State, after: State, name: string, r: Record)
      requires OnlyTouches(pool, before, after, name, r)
      ensures after.disk == before.disk && after.(disk := before.disk) == after
    {
    }

    static lemma StillClean(pool: string, s: State, s': State, name: string, r: Record)
      requires Clean(pool, s, name, r) && s' == s.(disk := s'.disk)
      ensures Clean(pool, s', name, r)
    {
    }

    method DeleteVolume(name: string) returns (res: Reply)
      requires Valid()
      modifies host
      ensures host.Ok() && (!res.Crashed? ==> Valid())
      ensures host.s == old(host.s).(datasets := host.s.datasets)
      ensures old(host.s.datasets) - {VolumeDataset(host.pool, name)} <= host.s.datasets <= old(host.s.datasets)
      ensures res.Done? ==> VolumeDataset(host.pool, name) in old(host.s.datasets) && VolumeDataset(host.pool, name) !in host.s.datasets
      ensures res.NotFound? ==> VolumeDataset(host.pool, name) !in old(host.s.datasets)
    {
      hide Busy, VolumeDataset, JailCovered, MountCovered, EpairCovered, RootCovered, LimitCovered, IsVolume;
      res := host.Invoke(DestroyDataset(host.s, VolumeDataset(host.pool, name)));
    }

    // ---------- the reconcile pass ----------

    /** The back-off of a jail, fresh if it has never been attempted. */
    function BackoffOf(name: string): Backoff.State
      reads this
    {
      if name in backoff then backoff[name] else Backoff.Fresh
    }

    ghost function AttemptsOf(name: string): seq<nat>
      reads this
    {
      if name in attempts then attempts[name] else []
    }

    /** Looks up a jail's back-off, entering a fresh one if there is none. */
    method MayAttempt(name: string, now: nat) returns (yes: bool)
      requires InPace(backoff, attempts)
      modifies this`backoff, this`attempts
      ensures InPace(backoff, attempts) && name in backoff
      ensures yes <==> Backoff.CanRetry(old(BackoffOf(name)), now)
      ensures forall n :: BackoffOf(n) == old(BackoffOf(n)) && AttemptsOf(n) == old(AttemptsOf(n))
    {
      hide Backoff.Paced, Backoff.CanRetry;
      if name !in backoff {
        assert Backoff.Paced(Backoff.Fresh, []) by { Backoff.FreshIsPaced(); }
        backoff := backoff[name := Backoff.Fresh];
        attempts := attempts[name := []];
      }
      var entry := new Backoff.BackoffState(backoff[name]);
      yes := entry.MayRetry(now);
    }

    method RecordAttempt(name: string, now: nat)
      requires InPace(backoff, attempts) && name in backoff && Backoff.CanRetry(backoff[name], now)
      modifies this`backoff, this`attempts
      ensures InPace(backoff, attempts)
      ensures BackoffOf(name) == Backoff.Attempted(old(BackoffOf(name)), now) && AttemptsOf(name) == old(AttemptsOf(name)) + [now]
      ensures forall n | n != name :: BackoffOf(n) == old(BackoffOf(n)) && AttemptsOf(n) == old(AttemptsOf(n))
    {
      hide Backoff.Paced, Backoff.CanRetry, Backoff.Attempted;
      Backoff.NextAttempt(backoff[name], attempts[name], now);
      var entry := new Backoff.BackoffState(backoff[name]);
      entry.RecordAttempt(now);
      backoff := backoff[name := entry.Value()];
      attempts := attempts[name := attempts[name] + [now]];
    }

    /** Any eight attempts in a row on one jail since start-up contain a pause of a minute; no cooldown passes 64 s. */
    lemma CrashLoopRate(name: string, i: nat)
      requires Valid() && i < |AttemptsOf(name)|
      ensures i + 7 < |AttemptsOf(name)| ==>
                exists j | i < j <= i + 7 :: AttemptsOf(name)[j] >= AttemptsOf(name)[j - 1] + Backoff.RESET_UPTIME_THRESHOLD
      ensures BackoffOf(name).retryAt.Some? && BackoffOf(name).startedAt == Some(AttemptsOf(name)[|AttemptsOf(name)| - 1])
      ensures BackoffOf(name).retryAt.value <= AttemptsOf(name)[|AttemptsOf(name)| - 1] + Seconds(64)
    {
      hide Backoff.Gated;
      var at := AttemptsOf(name);
      assert Backoff.Paced(BackoffOf(name), at);
      Backoff.ArmedAtMost64(at, |at| - 1);
      if i + 7 < |at| { Backoff.PauseInEveryEight(at, i); }
    }

    /**
      * One jail of one pass. Nothing happens before the back-off allows it, and every finished attempt arms it, whether
      * or not it succeeded. A failed provision is rolled back; `from` is the number of the rollback's first call. A jail
      * that exists already is at most restarted, with the mounts it has, so a finished attempt on it ends provisioned
      * exactly when the jail was furnished before.
      */
    method ReconcileOne(name: string, now: nat) returns (res: Reply, attempted: bool, rolledBack: bool, from: nat)
      requires Valid() && name in records
      modifies this, host
      ensures host.Ok() && (!res.Crashed? ==> Valid()) && records == old(records)
      ensures host.calls >= old(host.calls)
      ensures OnlyTouches(host.pool, old(host.s), host.s, name, records[name])
      ensures !Backoff.CanRetry(old(BackoffOf(name)), now) ==> host.s == old(host.s) && res.Done? && !attempted
      ensures BackoffOf(name) == if attempted then Backoff.Attempted(old(BackoffOf(name)), now) else old(BackoffOf(name))
      ensures AttemptsOf(name) == if attempted then old(AttemptsOf(name)) + [now] else old(AttemptsOf(name))
      ensures forall n | n != name :: BackoffOf(n) == old(BackoffOf(n)) && AttemptsOf(n) == old(AttemptsOf(n))
      ensures JailName(name) !in old(host.s.jails) && Backoff.CanRetry(old(BackoffOf(name)), now) ==>
                res.Done? || host.Smooth(old(host.calls)) ==> attempted
      ensures attempted && res.Done? ==>
                (Provisioned(host.pool, host.s, name, records[name]) <==>
                 (JailName(name) in old(host.s.jails) ==> Furnished(host.pool, old(host.s), name, records[name])))
      ensures attempted && res.Done? ==> Running(host.pool, host.s, name, records[name])
      ensures host.Smooth(old(host.calls)) ==> !res.Crashed?
      ensures host.Smooth(old(host.calls)) && Backoff.CanRetry(old(BackoffOf(name)), now) ==>
                JailName(name) in old(host.s.jails) ==>
                res.Done? && (attempted <==> !old(host.s).jails[JailName(name)].running && !Parked(old(host.s), name, records[name]))
      ensures JailName(name) in old(host.s.jails) && old(host.s).jails[JailName(name)].running ==> !attempted
      ensures Parked(old(host.s), name, records[name]) ==> !attempted && host.s == old(host.s)
      ensures host.Smooth(old(host.calls)) && Backoff.CanRetry(old(BackoffOf(name)), now) ==>
                Mendable(host.pool, old(host.s), name, records[name]) ==>
                res.Done? && Provisioned(host.pool, host.s, name, records[name])
      ensures attempted && res.Failed? && JailName(name) !in old(host.s.jails) ==> rolledBack
      ensures rolledBack ==> attempted
      ensures rolledBack && host.Smooth(from) ==> Clean(host.pool, host.s, name, records[name])
      ensures JailName(name) in old(host.s.jails) ==>
                JailName(name) in host.s.jails && host.s.mounts == old(host.s.mounts) && !rolledBack
      ensures Backoff.CanRetry(old(BackoffOf(name)), now) && host.CrashesAfter(old(host.calls), 4) ==>
                Clean(host.pool, old(host.s), name, records[name]) && CanClone(host.pool, old(host.s), name, records[name]) ==>
                records[name].spec.volumes != [] ==>
                res.Crashed? && HalfMade(host.pool, host.s, name, records[name]) && !host.s.jails[JailName(name)].running
    {
      hide Clean, Covered, OnlyTouches, Provisioned, Furnished, Running, HalfMade, CanClone, Mendable, JailName, InPace,
           Backoff.CanRetry, Backoff.Attempted;
      attempted, rolledBack, from := false, false, 0;
      TouchesNothing(host.pool, host.foreign, host.s, name);
      var may := MayAttempt(name, now);
      if !may { res := Done; return; }
      var known := host.Ask(JailName(name) in host.s.jails);
      if known.Unanswered? || known.CutOff? { res := Cut(known); return; }
      if known.No? {
        MendableClones(host.pool, host.s, name, records[name]);
        res, attempted, rolledBack, from := Make(name, now);
      } else {
        if Clean(host.pool, host.s, name, records[name]) { CleanHasNoJail(host.pool, host.s, name, records[name]); }
        res, attempted := Revive(name, now);
      }
    }

    /** A jail that does not exist: provisioned, and rolled back if that fails. */
    method Make(name: string, now: nat) returns (res: Reply, attempted: bool, rolledBack: bool, from: nat)
      requires Valid() && name in records && name in backoff && Backoff.CanRetry(backoff[name], now)
      requires JailName(name) !in host.s.jails
      modifies this, host
      ensures host.Ok() && (!res.Crashed? ==> Valid()) && records == old(records)
      ensures host.calls >= old(host.calls)
      ensures OnlyTouches(host.pool, old(host.s), host.s, name, records[name])
      ensures BackoffOf(name) == if attempted then Backoff.Attempted(old(BackoffOf(name)), now) else old(BackoffOf(name))
      ensures AttemptsOf(name) == if attempted then old(AttemptsOf(name)) + [now] else old(AttemptsOf(name))
      ensures forall n | n != name :: BackoffOf(n) == old(BackoffOf(n)) && AttemptsOf(n) == old(AttemptsOf(n))
      ensures res.Done? ==> attempted && Provisioned(host.pool, host.s, name, records[name])
                            && Running(host.pool, host.s, name, records[name])
      ensures host.Smooth(old(host.calls)) ==> attempted && !res.Crashed? && (res.Done? <==> CanClone(host.pool, old(host.s), name, records[name]))
      ensures attempted && res.Failed? ==> rolledBack
      ensures rolledBack ==> attempted
      ensures rolledBack && host.Smooth(from) ==> Clean(host.pool, host.s, name, records[name])
      ensures host.CrashesAfter(old(host.calls), 3) ==>
                Clean(host.pool, old(host.s), name, records[name]) && CanClone(host.pool, old(host.s), name, records[name]) ==>
                records[name].spec.volumes != [] ==>
                res.Crashed? && HalfMade(host.pool, host.s, name, records[name]) && !host.s.jails[JailName(name)].running
    {
      hide Clean, Covered, OnlyTouches, Furnished, Running, HalfMade, CanClone, JailName, InPace, Backoff.CanRetry, Backoff.Attempted;
      attempted, rolledBack, from := false, false, 0;
      var r := records[name];
      ghost var s0 := host.s;
      res := Provision(name, r);
      TouchedDisk(host.pool, s0, host.s, name, r);
      if res.Crashed? {
        CutShort(host.pool, s0, host.s, name, r);
        return;
      }
      RecordAttempt(name, now);
      attempted := true;
      if !res.Done? {
        rolledBack, from := true, host.calls;
        ghost var s1 := host.s;
        var crashed := RollbackProvision(name, r);
        TouchesCompose(host.pool, s0, s1, host.s, name, r);
        TouchedDisk(host.pool, s0, host.s, name, r);
        if crashed { res := Crashed; }
      }
    }

    /** A jail that exists: its limits are refreshed if it runs, and it is restarted if it does not and may be. */
    method Revive(name: string, now: nat) returns (res: Reply, attempted: bool)
      requires Valid() && name in records && name in backoff && Backoff.CanRetry(backoff[name], now)
      requires JailName(name) in host.s.jails
      modifies this, host
      ensures host.Ok() && (!res.Crashed? ==> Valid()) && records == old(records)
      ensures host.calls >= old(host.calls)
      ensures OnlyTouches(host.pool, old(host.s), host.s, name, records[name])
      ensures BackoffOf(name) == if attempted then Backoff.Attempted(old(BackoffOf(name)), now) else old(BackoffOf(name))
      ensures AttemptsOf(name) == if attempted then old(AttemptsOf(name)) + [now] else old(AttemptsOf(name))
      ensures forall n | n != name :: BackoffOf(n) == old(BackoffOf(n)) && AttemptsOf(n) == old(AttemptsOf(n))
      ensures attempted && res.Done? ==> Running(host.pool, host.s, name, records[name])
      ensures attempted && res.Done? ==>
                (Provisioned(host.pool, host.s, name, records[name]) <==> Furnished(host.pool, old(host.s), name, records[name]))
      ensures host.Smooth(old(host.calls)) ==> res.Done?
      ensures Parked(old(host.s), name, records[name]) ==> !attempted && host.s == old(host.s)
      ensures attempted ==> !old(host.s).jails[JailName(name)].running
      ensures host.Smooth(old(host.calls)) ==>
                (attempted <==> !old(host.s).jails[JailName(name)].running && !Parked(old(host.s), name, records[name]))
      ensures host.Smooth(old(host.calls)) && Mendable(host.pool, old(host.s), name, records[name]) ==>
                Provisioned(host.pool, host.s, name, records[name])
      ensures JailName(name) in host.s.jails && host.s.mounts == old(host.s.mounts)
    {
      hide Covered, OnlyTouches, Provisioned, Furnished, Running, Mendable, JailName, InPace, Backoff.CanRetry, Backoff.Attempted;
      attempted := false;
      var r := records[name];
      TouchesNothing(host.pool, host.foreign, host.s, name);
      ghost var s0 := host.s;
      var running := host.Ask(host.s.jails[JailName(name)].running);
      if running.Unanswered? || running.CutOff? { res := Cut(running); return; }
      if Mendable(host.pool, s0, name, r) { MendableMayRestart(host.pool, s0, name, r); }
      if running.Yes? {
        res := Limit(name, r);
        TouchedDisk(host.pool, s0, host.s, name, r);
        if res.Done? { LimitedIff(host.pool, s0, host.s, name, r); }
      } else if r.spec.restart.RestartNever? {
        res := Done;
      } else {
        res := Restart(name, r);
        TouchedDisk(host.pool, s0, host.s, name, r);
        if res.Crashed? { return; }
        if res.Done? { RestartedIff(host.pool, s0, host.s, name, r); }
        RecordAttempt(name, now);
        attempted := true;
      }
    }

    /** A running jail's limits are refreshed on every pass. */
    method Limit(name: string, r: Record) returns (res: Reply)
      requires host.Ok() && name in host.s.disk && host.s.disk[name] == r
      modifies host
      ensures host.Ok() && OnlyTouches(host.pool, old(host.s), host.s, name, r)
      ensures host.calls >= old(host.calls)
      ensures host.s == old(host.s).(limits := host.s.limits)
      ensures res.Done? ==> JailName(name) in host.s.limits && host.s.limits[JailName(name)] == r.spec.resources
      ensures res.Done? || res.Failed? || res.Crashed?
      ensures host.Smooth(old(host.calls)) ==> !res.Crashed?
      ensures JailName(name) in old(host.s.jails) && host.Smooth(old(host.calls)) ==> res.Done?
    {
      hide JailName, JailDataset, EpairBase, Target, Targets, IsVolume, VolumeDataset, Rootfs, Covered, OnlyTouches, Declares, Connects;
      ghost var s0 := host.s;
      TouchesNothing(host.pool, host.foreign, s0, name);
      TouchesLimits(host.pool, host.foreign, s0, name, r.spec.resources);
      var set' := host.Invoke(SetLimits(host.s, JailName(name), r.spec.resources));
      Passed(s0, s0, name);
      res := if set'.Done? then Done else Err(set');
    }

    /**
      * Every tracked jail, in whatever order; one jail's failure does not stop the pass, a crash does. Each jail is
      * attended to whatever the others are in for.
      */
    method Reconcile(now: nat) returns (res: Reply)
      requires Valid()
      modifies this, host
      ensures host.Ok() && (!res.Crashed? ==> Valid()) && records == old(records)
      ensures host.calls >= old(host.calls)
      ensures host.s.disk == old(host.s.disk)
      ensures VolumesKept(host.pool, old(host.s), host.s)
      ensures res.Done? || res.Crashed?
      ensures host.Smooth(old(host.calls)) ==> res.Done?
      ensures forall n | n in records && Parked(old(host.s), n, records[n]) :: Parked(host.s, n, records[n])
      ensures res.Done? ==> forall n | n in records ::
                Attended(host.pool, old(host.s), host.s, n, records[n], old(BackoffOf(n)), old(AttemptsOf(n)), AttemptsOf(n), now,
                         host.Smooth(old(host.calls)))
    {
      hide Clean, Covered, OnlyTouches, Attended, Waiting, Provisioned, Furnished, Running, Mendable, HalfMade, Parked, Undisturbed, JailName,
           InPace, Backoff.CanRetry, Backoff.Attempted, VolumesKept;
      assert VolumesKept(host.pool, host.s, host.s) by { NoVolumeLost(host.pool, host.s); }
      var todo := records.Keys;
      forall n | n in todo ensures Waiting(host.pool, host.s, host.s, n, records[n]) { NobodyWaits(host.pool, host.s, n, records[n]); }
      while todo != {}
        invariant Valid() && records == old(records) && todo <= records.Keys && host.calls >= old(host.calls)
        invariant host.s.disk == old(host.s.disk) && VolumesKept(host.pool, old(host.s), host.s)
        invariant forall n | n in records && Parked(old(host.s), n, records[n]) :: Parked(host.s, n, records[n])
        invariant forall n | n in todo ::
                    Waiting(host.pool, old(host.s), host.s, n, records[n]) && BackoffOf(n) == old(BackoffOf(n)) && AttemptsOf(n) == old(AttemptsOf(n))
        invariant forall n | n in records && n !in todo ::
                    Attended(host.pool, old(host.s), host.s, n, records[n], old(BackoffOf(n)), old(AttemptsOf(n)), AttemptsOf(n), now,
                             host.Smooth(old(host.calls)))
        decreases |todo|
      {
        var name :| name in todo;
        todo := todo - {name};
        ghost var s0, smooth := host.s, host.Smooth(old(host.calls));
        var one, attempted, _, _ := ReconcileOne(name, now);
        TouchedDisk(host.pool, s0, host.s, name, records[name]);
        TouchKeepsVolumes(host.pool, s0, host.s, name, records[name]);
        VolumesStayKept(host.pool, old(host.s), s0, host.s);
        forall n | n in records && n != name
          ensures Waiting(host.pool, s0, host.s, n, records[n])
          ensures Parked(s0, n, records[n]) ==> Parked(host.s, n, records[n])
        {
          OthersUntouched(host.pool, host.foreign, s0, host.s, name, n);
          BaseUntouched(host.pool, s0, host.s, name, n);
          UndisturbedWaits(host.pool, s0, host.s, n, records[n]);
        }
        if one.Crashed? { return Crashed; }
        NowAttended(host.pool, old(host.s), s0, host.s, name, records[name], old(BackoffOf(name)), old(AttemptsOf(name)), AttemptsOf(name), now,
                    host.Smooth(old(host.calls)));
        forall n | n in todo ensures Waiting(host.pool, old(host.s), host.s, n, records[n]) {
          StillWaiting(host.pool, old(host.s), s0, host.s, n, records[n]);
        }
        forall n | n in records && n !in todo && n != name
          ensures Attended(host.pool, old(host.s), host.s, n, records[n], old(BackoffOf(n)), old(AttemptsOf(n)), AttemptsOf(n), now,
                           host.Smooth(old(host.calls)))
        {
          StillAttended(host.pool, old(host.s), s0, host.s, n, records[n], old(BackoffOf(n)), old(AttemptsOf(n)), AttemptsOf(n), now,
                        smooth, host.Smooth(old(host.calls)));
        }
      }
      res := Done;
    }
  }

  /** What one jail's prospects and state keep while the others are attended to. */
  ghost predicate Waiting(pool: string, before: State, after: State, n: string, r: Record) {
    && (JailName(n) in after.jails <==> JailName(n) in before.jails)
    && (Mendable(pool, before, n, r) ==> Mendable(pool, after, n, r))
    && (Provisioned(pool, before, n, r) ==> Provisioned(pool, after, n, r))
    && (HalfMade(pool, before, n, r) ==> HalfMade(pool, after, n, r))
    && (Parked(before, n, r) ==> Parked(after, n, r))
    && (JailName(n) in before.jails ==> after.jails[JailName(n)] == before.jails[JailName(n)])
  }

  /**
    * What a pass has done for one jail: it was attempted at most once; if no call went wrong and its back-off allowed it,
    * it was provisioned if it could be mended, and attempted if it did not exist; a running jail and one not to be started
    * again were not attempted, and the latter is still down; a half-made jail is still half-made.
    */
  ghost predicate Attended(pool: string, before: State, after: State, n: string, r: Record, b: Backoff.State, at: seq<nat>, at': seq<nat>,
                           now: nat, smooth: bool)
  {
    && (at' == at || at' == at + [now])
    && (smooth && Backoff.CanRetry(b, now) && Mendable(pool, before, n, r) ==> Provisioned(pool, after, n, r))
    && (smooth && Backoff.CanRetry(b, now) && JailName(n) !in before.jails ==> at' == at + [now])
    && (HalfMade(pool, before, n, r) ==> HalfMade(pool, after, n, r))
    && (JailName(n) in before.jails && before.jails[JailName(n)].running ==> at' == at)
    && (Parked(before, n, r) ==> at' == at && Parked(after, n, r))
  }

  lemma NobodyWaits(pool: string, s: State, n: string, r: Record)
    ensures Waiting(pool, s, s, n, r)
  {
    hide JailName, Mendable, Provisioned, HalfMade;
  }

  lemma StillWaiting(pool: string, before: State, mid: State, after: State, n: string, r: Record)
    requires Waiting(pool, before, mid, n, r) && Waiting(pool, mid, after, n, r)
    ensures Waiting(pool, before, after, n, r)
  {
    hide JailName, Mendable, Provisioned, HalfMade;
  }

  lemma StillAttended(pool: string, before: State, mid: State, after: State, n: string, r: Record, b: Backoff.State, at: seq<nat>, at': seq<nat>,
                      now: nat, smooth: bool, smooth': bool)
    requires Attended(pool, before, mid, n, r, b, at, at', now, smooth) && Waiting(pool, mid, after, n, r) && (smooth' ==> smooth)
    ensures Attended(pool, before, after, n, r, b, at, at', now, smooth')
  {
    hide JailName, Mendable, Provisioned, HalfMade, Backoff.CanRetry;
  }

  lemma NowAttended(pool: string, before: State, mid: State, after: State, n: string, r: Record, b: Backoff.State, at: seq<nat>, at': seq<nat>,
                    now: nat, smooth: bool)
    requires Waiting(pool, before, mid, n, r) && (at' == at || at' == at + [now])
    requires smooth && Backoff.CanRetry(b, now) ==>
               (Mendable(pool, mid, n, r) ==> Provisioned(pool, after, n, r)) && (JailName(n) !in mid.jails ==> at' == at + [now])
    requires JailName(n) in mid.jails ==> JailName(n) in after.jails && after.mounts == mid.mounts
    requires JailName(n) in mid.jails && (mid.jails[JailName(n)].running || Parked(mid, n, r)) ==> at' == at
    requires Parked(mid, n, r) ==> after == mid
    ensures Attended(pool, before, after, n, r, b, at, at', now, smooth)
  {
    hide JailName, Mendable, Provisioned, Backoff.CanRetry, Targets;
  }

  /** A crash after the jail was created on a clean slate leaves it without its mounts. */
  lemma CutShort(pool: string, before: State, after: State, name: string, r: Record)
    ensures r.spec.volumes != [] && Clean(pool, before, name, r) && after.mounts == before.mounts && JailName(name) in after.jails ==>
              HalfMade(pool, after, name, r)
  {
    hide JailName, JailDataset, EpairBase, Target;
    if r.spec.volumes != [] { assert Target(pool, name, r.spec.volumes[0]) in Targets(pool, name, r); }
  }

  lemma CleanHasNoJail(pool: string, s: State, name: string, r: Record)
    requires Clean(pool, s, name, r)
    ensures JailName(name) !in s.jails
  {
  }

  lemma MendableClones(pool: string, s: State, name: string, r: Record)
    requires JailName(name) !in s.jails
    ensures Mendable(pool, s, name, r) ==> CanClone(pool, s, name, r)
  {
  }

  lemma MendableMayRestart(pool: string, s: State, name: string, r: Record)
    requires JailName(name) in s.jails && Mendable(pool, s, name, r)
    ensures Furnished(pool, s, name, r) && (s.jails[JailName(name)].running || !r.spec.restart.RestartNever?)
  {
  }

  lemma LimitedIff(pool: string, before: State, after: State, name: string, r: Record)
    requires after == before.(limits := after.limits) && JailName(name) in after.limits && after.limits[JailName(name)] == r.spec.resources
    requires JailName(name) in before.jails && before.jails[JailName(name)].running
    ensures Mendable(pool, before, name, r) ==> Provisioned(pool, after, name, r)
  {
  }

  lemma UndisturbedWaits(pool: string, before: State, after: State, name: string, r: Record)
    requires Undisturbed(pool, before, after, name, r) && after.disk == before.disk
    requires !RootCovered(pool, before.disk, BaseDataset(pool, r.spec.image)) && BaseDataset(pool, r.spec.image) in before.datasets ==>
               BaseDataset(pool, r.spec.image) in after.datasets
    ensures Waiting(pool, before, after, name, r)
    ensures Parked(before, name, r) ==> Parked(after, name, r)
  {
    hide JailName, JailDataset, BaseDataset, EpairBase, IsVolume, VolumeDataset, RootCovered, Rootfs, Target;
    forall v | v in r.spec.volumes ensures IsVolume(pool, VolumeDataset(pool, v.name)) { VolumeIsVolume(pool, v.name); }
  }

  /** A base image that is no tracked jail's root stays where it is. */
  lemma BaseUntouched(pool: string, before: State, after: State, name: string, other: string)
    requires name in before.disk && other in before.disk && OnlyTouches(pool, before, after, name, before.disk[name])
    ensures var base := BaseDataset(pool, before.disk[other].spec.image);
            !RootCovered(pool, before.disk, base) && base in before.datasets ==> base in after.datasets
  {
    hide JailName, JailDataset, BaseDataset, EpairBase, IsVolume, Target, Rootfs;
  }

  /** No volume dataset has disappeared. */
  ghost predicate VolumesKept(pool: string, before: State, after: State) {
    forall d | d in before.datasets && IsVolume(pool, d) :: d in after.datasets
  }

  lemma NoVolumeLost(pool: string, s: State)
    ensures VolumesKept(pool, s, s)
  {
  }

  lemma VolumesStayKept(pool: string, before: State, mid: State, after: State)
    requires VolumesKept(pool, before, mid) && VolumesKept(pool, mid, after)
    ensures VolumesKept(pool, before, after)
  {
    hide IsVolume;
  }

  lemma TouchKeepsVolumes(pool: string, before: State, after: State, name: string, r: Record)
    requires OnlyTouches(pool, before, after, name, r)
    ensures VolumesKept(pool, before, after)
  {
    hide IsVolume;
  }

  /**
    * Passes at any times, any call failing, the daemon crashing at any call and being restarted: a jail that has stopped
    * and is not to be started again stays down.
    */
  method StaysDown(host: OperatingSystem, name: string, ticks: seq<nat>)
    requires host.Ok() && name in host.s.disk && Parked(host.s, name, host.s.disk[name])
    modifies host
    ensures host.Ok() && host.s.disk == old(host.s.disk) && Parked(host.s, name, host.s.disk[name])
  {
    hide Covered, Attended, Parked, VolumesKept, InPace;
    var daemon := new NodeReconciler(host);
    for i := 0 to |ticks|
      invariant daemon.host == host && daemon.Valid() && fresh(daemon)
      invariant host.s.disk == old(host.s.disk) && Parked(host.s, name, host.s.disk[name])
    {
      var res := daemon.Reconcile(ticks[i]);
      if res.Crashed? { daemon := new NodeReconciler(host); }
    }
  }

  // ---------- whole lives of a node ----------

  datatype Op =
    | Apply(spec: JailSpec)
    | Delete(name: string)
    | Tick(now: nat)
    | Retarget(name: string, to: Option<string>)
    | DropVolume(volume: string)
    | RestartDaemon

  /**
    * Any sequence of operations, any call failing, the daemon crashing at any call and being restarted: in the state
    * each leaves behind, everything on the host is covered by a record, and only dropping a volume destroys one.
    */
  method Live(host: OperatingSystem, ops: seq<Op>)
    requires host.Ok()
    modifies host
    ensures host.Ok()
    ensures (forall i | 0 <= i < |ops| :: !ops[i].DropVolume?) ==> VolumesKept(host.pool, old(host.s), host.s)
  {
    hide Clean, Covered, OnlyTouches, Provisioned, IsVolume, VolumeDataset;
    var daemon := new NodeReconciler(host);
    for i := 0 to |ops|
      invariant daemon.host == host && daemon.Valid()
      invariant fresh(daemon)
      invariant (forall k | 0 <= k < i :: !ops[k].DropVolume?) ==> VolumesKept(host.pool, old(host.s), host.s)
    {
      var res := Done;
      ghost var s0 := host.s;
      match ops[i] {
        case Apply(spec) => res := daemon.Apply(spec);
        case Delete(name) =>
          ghost var known := name in daemon.records;
          ghost var r := if known then daemon.records[name] else Record(JailSpec("", "", [], "", "", "", [], RestartNever, None, true), 0);
          res := daemon.Delete(name);
          if known { TouchKeepsVolumes(host.pool, s0, host.s.(disk := s0.disk), name, r); }
        case Tick(now) => res := daemon.Reconcile(now);
        case Retarget(name, to) => res := daemon.SetReplicateTo(name, to);
        case DropVolume(volume) => res := daemon.DeleteVolume(volume);
        case RestartDaemon => daemon := new NodeReconciler(host);
      }
      if res.Crashed? { daemon := new NodeReconciler(host); }
    }
  }
}

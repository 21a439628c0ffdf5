/** A node's operating-system state, the names the node reconciler uses in it, and what its records must cover. */
module Machine {
  import opened Text
  import opened Services

  // ---------- specs and records ----------

  datatype RestartPolicy = RestartAlways | RestartOnFailure | RestartNever

  /** A jail spec; `parses` is whether its address and resource quantities are well formed. */
  datatype JailSpec = JailSpec(
    name: string, image: string, command: seq<string>, address: string, bridge: string, resources: string,
    volumes: seq<VolumeMount>, restart: RestartPolicy, replicateTo: Option<string>, parses: bool)

  datatype Record = Record(spec: JailSpec, ordinal: nat)

  predicate AlphaNum(c: char) { 'a' <= c <= 'z' || '0' <= c <= '9' }

  predicate ValidName(s: string) {
    && 0 < |s| <= 63
    && (forall i | 0 <= i < |s| :: AlphaNum(s[i]) || s[i] == '-')
    && AlphaNum(s[0]) && AlphaNum(s[|s| - 1])
  }

  /** What a re-apply may not change. */
  predicate ValidTransition(old': JailSpec, new': JailSpec) {
    old'.image == new'.image && old'.address == new'.address && old'.volumes == new'.volumes
  }

  // ---------- names ----------

  function JailName(name: string): string { "keel-" + name }

  function BaseDataset(pool: string, image: string): string { pool + "/keel/" + image }

  function JailDataset(pool: string, name: string): string { pool + "/keel/jails/" + name }

  function VolumePrefix(pool: string): string { pool + "/keel/volumes/" }

  function VolumeDataset(pool: string, volume: string): string { VolumePrefix(pool) + volume }

  function Rootfs(pool: string, name: string): string { "/" + JailDataset(pool, name) }

  function EpairBase(ordinal: nat): string { "epair" + Decimal(ordinal) }

  /** Drops the leading slashes, all of them and nothing else. */
  function TrimSlashes(path: string): (r: string)
    ensures |r| <= |path| && r == path[|path| - |r|..] && (r != "" ==> r[0] != '/')
    ensures forall i | 0 <= i < |path| - |r| :: path[i] == '/'
  {
    if path != "" && path[0] == '/' then TrimSlashes(path[1..]) else path
  }

  function Target(pool: string, name: string, v: VolumeMount): string {
    Rootfs(pool, name) + "/" + TrimSlashes(v.mountPath)
  }

  /** An absolute mount path lies under the root as it stands. */
  lemma TargetOfAbsolute(pool: string, name: string, v: VolumeMount)
    requires v.mountPath != "" && v.mountPath[0] == '/' && (|v.mountPath| > 1 ==> v.mountPath[1] != '/')
    ensures Target(pool, name, v) == Rootfs(pool, name) + v.mountPath
  {
    var path := v.mountPath;
    assert TrimSlashes(path) == path[1..];
    assert path == "/" + path[1..];
  }

  predicate IsVolume(pool: string, dataset: string) { VolumePrefix(pool) <= dataset }

  lemma ConcatInjective(p: string, a: string, b: string)
    requires p + a == p + b
    ensures a == b
  {
    assert (p + a)[|p|..] == a && (p + b)[|p|..] == b;
  }

  lemma JailNameInjective(a: string, b: string)
    requires JailName(a) == JailName(b)
    ensures a == b
  {
    ConcatInjective("keel-", a, b);
  }

  lemma JailDatasetInjective(pool: string, a: string, b: string)
    requires JailDataset(pool, a) == JailDataset(pool, b)
    ensures a == b
  {
    ConcatInjective(pool + "/keel/jails/", a, b);
  }

  lemma EpairInjective(a: nat, b: nat)
    requires EpairBase(a) == EpairBase(b)
    ensures a == b
  {
    ConcatInjective("epair", Decimal(a), Decimal(b));
    ValueOfDecimal(a);
    ValueOfDecimal(b);
  }

  /** A jail's root is never a volume: the paths part after `/keel/`. */
  lemma RootIsNoVolume(pool: string, name: string)
    ensures !IsVolume(pool, JailDataset(pool, name))
  {
    var d, v, k := JailDataset(pool, name), VolumePrefix(pool), |pool| + 6;
    assert d[k] == 'j' && v[k] == 'v';
  }

  lemma NoSlash(name: string, i: nat)
    requires ValidName(name) && i < |name|
    ensures name[i] != '/'
  {
  }

  /** A path strictly under one jail's root is under no other jail's root: names hold no slash. */
  lemma UnderOneRoot(pool: string, a: string, b: string, rest: string)
    requires ValidName(a) && ValidName(b) && a != b
    ensures !(Rootfs(pool, a) + "/" <= Rootfs(pool, b) + "/" + rest)
  {
    var p := "/" + (pool + "/keel/jails/");
    assert Rootfs(pool, a) == p + a && Rootfs(pool, b) == p + b;
    var x, y := p + a + "/", p + b + "/" + rest;
    if |a| < |b| {
      NoSlash(b, |a|);
      assert x[|p| + |a|] == '/' && y[|p| + |a|] == b[|a|];
    } else if |b| < |a| {
      NoSlash(a, |b|);
      assert x[|p| + |b|] == a[|b|] && y[|p| + |b|] == '/';
    } else {
      assert x[|p|..|p| + |a|] == a && y[|p|..|p| + |b|] == b;
      assert y[..|x|][|p|..|p| + |b|] == b;
    }
  }

  // ---------- state ----------

  /** A jail, its root, and the command it was last started with. */
  datatype Jail = Jail(rootfs: string, running: bool, command: seq<string>)

  /** What a network pair connects: the jail, the bridge, and the jail's address. */
  datatype Link = Link(jail: string, bridge: string, address: string)

  /**
    * Datasets, jails, mounts (which dataset at which path), network pairs and limits of the host, and the records on its
    * disk.
    */
  datatype State = State(
    datasets: set<string>, jails: map<string, Jail>, mounts: map<string, string>, epairs: map<string, Link>,
    limits: map<string, string>, disk: map<string, Record>)

  function Targets(pool: string, name: string, r: Record): set<string> {
    set v | v in r.spec.volumes :: Target(pool, name, v)
  }

  /** The records on disk are well named and no two share a network-pair ordinal. */
  ghost predicate ValidDisk(disk: map<string, Record>) {
    && (forall n | n in disk :: disk[n].spec.name == n && ValidName(n))
    && (forall a, b | a in disk && b in disk && disk[a].ordinal == disk[b].ordinal :: a == b)
  }

  ghost predicate JailCovered(pool: string, disk: map<string, Record>, j: string, jail: Jail) {
    exists n | n in disk :: j == JailName(n) && jail.rootfs == Rootfs(pool, n)
  }

  ghost predicate LimitCovered(disk: map<string, Record>, j: string) {
    exists n | n in disk :: j == JailName(n)
  }

  ghost predicate RootCovered(pool: string, disk: map<string, Record>, d: string) {
    exists n | n in disk :: d == JailDataset(pool, n)
  }

  /** The record declares this dataset's volume at this path. */
  ghost predicate Declares(pool: string, name: string, r: Record, m: string, dataset: string) {
    exists v | v in r.spec.volumes :: m == Target(pool, name, v) && dataset == VolumeDataset(pool, v.name)
  }

  /** The pair connects the record's own jail, with the record's address. */
  predicate Connects(name: string, r: Record, l: Link) {
    l.jail == JailName(name) && l.address == r.spec.address
  }

  ghost predicate MountCovered(pool: string, disk: map<string, Record>, m: string, dataset: string) {
    exists n | n in disk :: m in Targets(pool, n, disk[n]) && Declares(pool, n, disk[n], m, dataset)
  }

  ghost predicate EpairCovered(disk: map<string, Record>, e: string, l: Link) {
    exists n | n in disk :: e == EpairBase(disk[n].ordinal) && Connects(n, disk[n], l)
  }

  /**
    * Everything the reconciler has made belongs to a record on disk that names it, every mount shows the volume declared
    * there and every pair connects the jail it was made for; `foreign` datasets were there before.
    */
  ghost predicate Covered(pool: string, foreign: set<string>, s: State) {
    && ValidDisk(s.disk)
    && (forall j | j in s.jails :: JailCovered(pool, s.disk, j, s.jails[j]))
    && (forall j | j in s.limits :: LimitCovered(s.disk, j))
    && (forall d | d in s.datasets :: d in foreign || IsVolume(pool, d) || RootCovered(pool, s.disk, d))
    && (forall m | m in s.mounts :: MountCovered(pool, s.disk, m, s.mounts[m]))
    && (forall e | e in s.epairs :: EpairCovered(s.disk, e, s.epairs[e]))
  }

  /** Nothing of this record's is left on the host. */
  predicate Clean(pool: string, s: State, name: string, r: Record) {
    && JailName(name) !in s.jails && JailName(name) !in s.limits
    && JailDataset(pool, name) !in s.datasets
    && Targets(pool, name, r) !! s.mounts.Keys
    && EpairBase(r.ordinal) !in s.epairs
  }

  /** A dataset is busy while a jail has it as root or a volume is mounted inside it. */
  predicate Busy(s: State, dataset: string) {
    || (exists j | j in s.jails :: s.jails[j].rootfs == "/" + dataset)
    || (exists m | m in s.mounts :: "/" + dataset + "/" <= m)
  }

  /** Only this record's own resources, and volume datasets, may differ; volume datasets only appear. */
  ghost predicate OnlyTouches(pool: string, before: State, after: State, name: string, r: Record) {
    && after.disk == before.disk
    && (forall d | d != JailDataset(pool, name) && !IsVolume(pool, d) :: d in after.datasets <==> d in before.datasets)
    && (forall d | IsVolume(pool, d) && d in before.datasets :: d in after.datasets)
    && (forall j | j != JailName(name) ::
          && (j in after.jails <==> j in before.jails) && (j in after.jails ==> after.jails[j] == before.jails[j])
          && (j in after.limits <==> j in before.limits) && (j in after.limits ==> after.limits[j] == before.limits[j]))
    && (JailName(name) in after.jails ==> after.jails[JailName(name)].rootfs == Rootfs(pool, name))
    && (forall m | m !in Targets(pool, name, r) ::
          (m in after.mounts <==> m in before.mounts) && (m in after.mounts ==> after.mounts[m] == before.mounts[m]))
    && (forall m | m in Targets(pool, name, r) && m in after.mounts :: Declares(pool, name, r, m, after.mounts[m]))
    && (forall e | e != EpairBase(r.ordinal) ::
          (e in after.epairs <==> e in before.epairs) && (e in after.epairs ==> after.epairs[e] == before.epairs[e]))
    && (EpairBase(r.ordinal) in after.epairs ==> Connects(name, r, after.epairs[EpairBase(r.ordinal)]))
  }

  lemma TouchesCompose(pool: string, a: State, b: State, c: State, name: string, r: Record)
    requires OnlyTouches(pool, a, b, name, r) && OnlyTouches(pool, b, c, name, r)
    ensures OnlyTouches(pool, a, c, name, r)
  {
    hide JailName, JailDataset, EpairBase, Targets, IsVolume, Rootfs, Declares, Connects;
  }

  lemma TouchesNothing(pool: string, foreign: set<string>, s: State, name: string)
    requires Covered(pool, foreign, s) && name in s.disk
    ensures OnlyTouches(pool, s, s, name, s.disk[name])
  {
    hide JailName, JailDataset, EpairBase, Target, IsVolume, Rootfs, Declares, Connects;
    var r := s.disk[name];
    if JailName(name) in s.jails {
      var n :| n in s.disk && JailName(name) == JailName(n) && s.jails[JailName(name)].rootfs == Rootfs(pool, n);
      JailNameInjective(name, n);
    }
    forall m | m in Targets(pool, name, r) && m in s.mounts ensures Declares(pool, name, r, m, s.mounts[m]) {
      var n :| n in s.disk && m in Targets(pool, n, s.disk[n]) && Declares(pool, n, s.disk[n], m, s.mounts[m]);
      OneTarget(pool, name, n, r, s.disk[n], m);
    }
    if EpairBase(r.ordinal) in s.epairs {
      var n :| n in s.disk && EpairBase(r.ordinal) == EpairBase(s.disk[n].ordinal) && Connects(n, s.disk[n], s.epairs[EpairBase(r.ordinal)]);
      EpairInjective(r.ordinal, s.disk[n].ordinal);
    }
  }

  // What each kind of call touches, the record's own resources being what they should be.

  lemma TouchesVolume(pool: string, foreign: set<string>, s: State, name: string, v: VolumeMount)
    requires Covered(pool, foreign, s) && name in s.disk
    ensures OnlyTouches(pool, s, s.(datasets := s.datasets + {VolumeDataset(pool, v.name)}), name, s.disk[name])
  {
    hide JailName, JailDataset, EpairBase, Targets, Covered, Declares, Connects, Rootfs;
    TouchesNothing(pool, foreign, s, name);
    assert IsVolume(pool, VolumeDataset(pool, v.name));
  }

  lemma TouchesRoot(pool: string, foreign: set<string>, s: State, name: string, datasets: set<string>)
    requires Covered(pool, foreign, s) && name in s.disk
    requires datasets == s.datasets + {JailDataset(pool, name)} || datasets == s.datasets - {JailDataset(pool, name)}
    ensures OnlyTouches(pool, s, s.(datasets := datasets), name, s.disk[name])
  {
    hide JailName, JailDataset, EpairBase, Targets, Covered, Declares, Connects, Rootfs, IsVolume;
    TouchesNothing(pool, foreign, s, name);
    RootIsNoVolume(pool, name);
  }

  lemma TouchesMount(pool: string, foreign: set<string>, s: State, name: string, v: VolumeMount)
    requires Covered(pool, foreign, s) && name in s.disk && v in s.disk[name].spec.volumes
    ensures OnlyTouches(pool, s, s.(mounts := s.mounts[Target(pool, name, v) := VolumeDataset(pool, v.name)]), name, s.disk[name])
    ensures OnlyTouches(pool, s, s.(mounts := s.mounts - {Target(pool, name, v)}), name, s.disk[name])
  {
    hide JailName, JailDataset, EpairBase, Target, VolumeDataset, Covered, Connects, Rootfs, IsVolume;
    TouchesNothing(pool, foreign, s, name);
    var m, d := Target(pool, name, v), VolumeDataset(pool, v.name);
    assert Declares(pool, name, s.disk[name], m, d) && m in Targets(pool, name, s.disk[name]);
  }

  lemma TouchesLink(pool: string, foreign: set<string>, s: State, name: string, l: Link)
    requires Covered(pool, foreign, s) && name in s.disk && Connects(name, s.disk[name], l)
    ensures var e := EpairBase(s.disk[name].ordinal);
            && OnlyTouches(pool, s, s.(epairs := s.epairs[e := l]), name, s.disk[name])
            && OnlyTouches(pool, s, s.(epairs := s.epairs - {e}), name, s.disk[name])
  {
    hide JailName, JailDataset, EpairBase, Targets, Covered, Declares, Connects, Rootfs, IsVolume;
    TouchesNothing(pool, foreign, s, name);
  }

  lemma TouchesJail(pool: string, foreign: set<string>, s: State, name: string, jails: map<string, Jail>)
    requires Covered(pool, foreign, s) && name in s.disk
    requires jails - {JailName(name)} == s.jails - {JailName(name)}
    requires JailName(name) in jails ==> jails[JailName(name)].rootfs == Rootfs(pool, name)
    ensures OnlyTouches(pool, s, s.(jails := jails), name, s.disk[name])
  {
    hide JailName, JailDataset, EpairBase, Targets, Covered, Declares, Connects, Rootfs, IsVolume;
    TouchesNothing(pool, foreign, s, name);
    forall j | j != JailName(name) ensures (j in jails <==> j in s.jails) && (j in jails ==> jails[j] == s.jails[j]) {
      assert j in jails - {JailName(name)} <==> j in s.jails - {JailName(name)};
    }
  }

  lemma TouchesLimits(pool: string, foreign: set<string>, s: State, name: string, resources: string)
    requires Covered(pool, foreign, s) && name in s.disk
    ensures OnlyTouches(pool, s, s.(limits := s.limits[JailName(name) := resources]), name, s.disk[name])
    ensures OnlyTouches(pool, s, s.(limits := s.limits - {JailName(name)}), name, s.disk[name])
  {
    hide JailName, JailDataset, EpairBase, Targets, Covered, Declares, Connects, Rootfs, IsVolume;
    TouchesNothing(pool, foreign, s, name);
  }

  /** A record's jail stands on the record's root. */
  lemma OwnRoot(pool: string, foreign: set<string>, s: State, name: string)
    requires Covered(pool, foreign, s) && name in s.disk && JailName(name) in s.jails
    ensures s.jails[JailName(name)].rootfs == Rootfs(pool, name)
  {
    hide JailName, JailDataset, EpairBase, Targets, Covered, Declares, Connects, Rootfs, IsVolume;
    TouchesNothing(pool, foreign, s, name);
  }

  /** A path is a target of one jail at most. */
  lemma OneTarget(pool: string, a: string, b: string, ra: Record, rb: Record, m: string)
    requires ValidName(a) && ValidName(b) && m in Targets(pool, a, ra) && m in Targets(pool, b, rb)
    ensures a == b
  {
    hide Target, ValidName;
    var v :| v in ra.spec.volumes && m == Target(pool, a, v);
    var u :| u in rb.spec.volumes && m == Target(pool, b, u);
    SameRoot(pool, a, b, v, u);
  }

  /** A record's own resources are covered by being its own. */
  lemma TouchKeepsCovered(pool: string, foreign: set<string>, before: State, after: State, name: string)
    requires Covered(pool, foreign, before) && name in before.disk
    requires OnlyTouches(pool, before, after, name, before.disk[name])
    ensures Covered(pool, foreign, after)
  {
    hide JailName, JailDataset, EpairBase, Targets, IsVolume, Rootfs, ValidName, Declares, Connects;
    forall j | j in after.jails ensures JailCovered(pool, after.disk, j, after.jails[j]) {
      if j != JailName(name) { assert JailCovered(pool, before.disk, j, before.jails[j]); }
    }
    forall j | j in after.limits ensures LimitCovered(after.disk, j) {
      if j != JailName(name) { assert LimitCovered(before.disk, j); }
    }
    forall d | d in after.datasets ensures d in foreign || IsVolume(pool, d) || RootCovered(pool, after.disk, d) {
      if d != JailDataset(pool, name) && !IsVolume(pool, d) { assert d in before.datasets; }
    }
    forall m | m in after.mounts ensures MountCovered(pool, after.disk, m, after.mounts[m]) {
      if m !in Targets(pool, name, before.disk[name]) { assert MountCovered(pool, before.disk, m, before.mounts[m]); }
    }
    forall e | e in after.epairs ensures EpairCovered(after.disk, e, after.epairs[e]) {
      if e != EpairBase(before.disk[name].ordinal) { assert EpairCovered(before.disk, e, before.epairs[e]); }
    }
  }

  /** A record's jail, limits, root, mounts and network pair are exactly as they were, and no volume has gone. */
  ghost predicate Undisturbed(pool: string, before: State, after: State, name: string, r: Record) {
    && (JailName(name) in after.jails <==> JailName(name) in before.jails)
    && (JailName(name) in after.jails ==> after.jails[JailName(name)] == before.jails[JailName(name)])
    && (JailName(name) in after.limits <==> JailName(name) in before.limits)
    && (JailName(name) in after.limits ==> after.limits[JailName(name)] == before.limits[JailName(name)])
    && (JailDataset(pool, name) in after.datasets <==> JailDataset(pool, name) in before.datasets)
    && (forall m | m in Targets(pool, name, r) ::
          (m in after.mounts <==> m in before.mounts) && (m in after.mounts ==> after.mounts[m] == before.mounts[m]))
    && (EpairBase(r.ordinal) in after.epairs <==> EpairBase(r.ordinal) in before.epairs)
    && (EpairBase(r.ordinal) in after.epairs ==> after.epairs[EpairBase(r.ordinal)] == before.epairs[EpairBase(r.ordinal)])
    && (forall d | IsVolume(pool, d) && d in before.datasets :: d in after.datasets)
  }

  /** Work on one record leaves every other record undisturbed. */
  lemma OthersUntouched(pool: string, foreign: set<string>, before: State, after: State, name: string, other: string)
    requires Covered(pool, foreign, before) && name in before.disk && other in before.disk && name != other
    requires OnlyTouches(pool, before, after, name, before.disk[name])
    ensures Undisturbed(pool, before, after, other, before.disk[other])
  {
    hide JailName, JailDataset, EpairBase, Target, IsVolume;
    var r := before.disk[other];
    if JailName(other) == JailName(name) { JailNameInjective(other, name); }
    if JailDataset(pool, other) == JailDataset(pool, name) { JailDatasetInjective(pool, other, name); }
    RootIsNoVolume(pool, other);
    if EpairBase(r.ordinal) == EpairBase(before.disk[name].ordinal) { EpairInjective(r.ordinal, before.disk[name].ordinal); }
    forall m | m in Targets(pool, other, r) ensures m !in Targets(pool, name, before.disk[name]) {
      if m in Targets(pool, name, before.disk[name]) { OneTarget(pool, other, name, r, before.disk[name], m); }
    }
  }

  lemma SameRoot(pool: string, a: string, b: string, v: VolumeMount, u: VolumeMount)
    requires ValidName(a) && ValidName(b) && Target(pool, a, v) == Target(pool, b, u)
    ensures a == b
  {
    hide TrimSlashes;
    assert Rootfs(pool, a) + "/" <= Target(pool, a, v);
    if a != b { UnderOneRoot(pool, a, b, TrimSlashes(u.mountPath)); }
  }

  lemma SameDeclared(pool: string, name: string, a: Record, b: Record, m: string, dataset: string)
    requires a.spec.volumes == b.spec.volumes && m in Targets(pool, name, a) && Declares(pool, name, a, m, dataset)
    ensures m in Targets(pool, name, b) && Declares(pool, name, b, m, dataset)
  {
    hide Target, VolumeDataset;
  }

  lemma SameConnected(name: string, a: Record, b: Record, l: Link)
    requires a.spec.address == b.spec.address && Connects(name, a, l)
    ensures Connects(name, b, l)
  {
  }

  /** Saving a record that keeps the old one's volumes, address and ordinal, or a new one with a fresh ordinal, uncovers nothing. */
  lemma SaveKeepsCovered(pool: string, foreign: set<string>, s: State, r: Record)
    requires Covered(pool, foreign, s) && ValidName(r.spec.name)
    requires r.spec.name in s.disk ==>
               && s.disk[r.spec.name].ordinal == r.ordinal && s.disk[r.spec.name].spec.volumes == r.spec.volumes
               && s.disk[r.spec.name].spec.address == r.spec.address
    requires r.spec.name !in s.disk ==> forall n | n in s.disk :: s.disk[n].ordinal != r.ordinal
    ensures Covered(pool, foreign, s.(disk := s.disk[r.spec.name := r]))
  {
    hide JailName, JailDataset, EpairBase, Targets, IsVolume, ValidName, Rootfs, Declares, Connects;
    var disk := s.disk[r.spec.name := r];
    forall j | j in s.jails ensures JailCovered(pool, disk, j, s.jails[j]) {
      var n :| n in s.disk && j == JailName(n) && s.jails[j].rootfs == Rootfs(pool, n);
      assert n in disk;
    }
    forall j | j in s.limits ensures LimitCovered(disk, j) {
      var n :| n in s.disk && j == JailName(n);
      assert n in disk;
    }
    forall d | d in s.datasets && RootCovered(pool, s.disk, d) ensures RootCovered(pool, disk, d) {
      var n :| n in s.disk && d == JailDataset(pool, n);
      assert n in disk;
    }
    forall m | m in s.mounts ensures MountCovered(pool, disk, m, s.mounts[m]) {
      var n :| n in s.disk && m in Targets(pool, n, s.disk[n]) && Declares(pool, n, s.disk[n], m, s.mounts[m]);
      if n == r.spec.name { SameDeclared(pool, n, s.disk[n], r, m, s.mounts[m]); }
      assert n in disk;
    }
    forall e | e in s.epairs ensures EpairCovered(disk, e, s.epairs[e]) {
      var n :| n in s.disk && e == EpairBase(s.disk[n].ordinal) && Connects(n, s.disk[n], s.epairs[e]);
      if n == r.spec.name { SameConnected(n, s.disk[n], r, s.epairs[e]); }
      assert n in disk && disk[n].ordinal == s.disk[n].ordinal;
    }
  }

  /** Forgetting a record whose resources are all gone uncovers nothing. */
  lemma RemoveKeepsCovered(pool: string, foreign: set<string>, s: State, name: string)
    requires Covered(pool, foreign, s) && name in s.disk && Clean(pool, s, name, s.disk[name])
    ensures Covered(pool, foreign, s.(disk := s.disk - {name}))
  {
    hide JailName, JailDataset, EpairBase, Targets, IsVolume, ValidName, Rootfs, Declares, Connects;
    var disk := s.disk - {name};
    forall j | j in s.jails ensures JailCovered(pool, disk, j, s.jails[j]) {
      var n :| n in s.disk && j == JailName(n) && s.jails[j].rootfs == Rootfs(pool, n);
      assert n in disk;
    }
    forall j | j in s.limits ensures LimitCovered(disk, j) {
      var n :| n in s.disk && j == JailName(n);
      assert n in disk;
    }
    forall d | d in s.datasets && RootCovered(pool, s.disk, d) ensures RootCovered(pool, disk, d) {
      var n :| n in s.disk && d == JailDataset(pool, n);
      assert n in disk;
    }
    forall m | m in s.mounts ensures MountCovered(pool, disk, m, s.mounts[m]) {
      var n :| n in s.disk && m in Targets(pool, n, s.disk[n]) && Declares(pool, n, s.disk[n], m, s.mounts[m]);
      assert n in disk;
    }
    forall e | e in s.epairs ensures EpairCovered(disk, e, s.epairs[e]) {
      var n :| n in s.disk && e == EpairBase(s.disk[n].ordinal) && Connects(n, s.disk[n], s.epairs[e]);
      assert n in disk;
    }
  }

  /** Once its jail and declared mounts are gone, a record's root dataset is not busy. */
  lemma NotBusyOnceUnmounted(pool: string, foreign: set<string>, s: State, name: string)
    requires Covered(pool, foreign, s) && name in s.disk
    requires JailName(name) !in s.jails && Targets(pool, name, s.disk[name]) !! s.mounts.Keys
    ensures !Busy(s, JailDataset(pool, name))
  {
    hide JailName, JailDataset, ValidName, TrimSlashes;
    forall j | j in s.jails ensures s.jails[j].rootfs != Rootfs(pool, name) {
      var n :| n in s.disk && j == JailName(n) && s.jails[j].rootfs == Rootfs(pool, n);
      if Rootfs(pool, n) == Rootfs(pool, name) {
        ConcatInjective("/", JailDataset(pool, n), JailDataset(pool, name));
        JailDatasetInjective(pool, n, name);
      }
    }
    forall m | m in s.mounts ensures !(Rootfs(pool, name) + "/" <= m) {
      assert MountCovered(pool, s.disk, m, s.mounts[m]);
      var n :| n in s.disk && m in Targets(pool, n, s.disk[n]);
      var v :| v in s.disk[n].spec.volumes && m == Target(pool, n, v);
      if name != n { UnderOneRoot(pool, name, n, TrimSlashes(v.mountPath)); }
    }
  }

  /** And while its jail or one of them is there, it is. */
  lemma BusyIff(pool: string, foreign: set<string>, s: State, name: string)
    requires Covered(pool, foreign, s) && name in s.disk
    ensures Busy(s, JailDataset(pool, name)) <==> JailName(name) in s.jails || !(Targets(pool, name, s.disk[name]) !! s.mounts.Keys)
  {
    hide JailName, JailDataset, ValidName, TrimSlashes;
    if JailName(name) in s.jails {
      var n :| n in s.disk && JailName(name) == JailName(n) && s.jails[JailName(name)].rootfs == Rootfs(pool, n);
      JailNameInjective(name, n);
    } else if Targets(pool, name, s.disk[name]) !! s.mounts.Keys {
      NotBusyOnceUnmounted(pool, foreign, s, name);
    } else {
      var m :| m in Targets(pool, name, s.disk[name]) && m in s.mounts;
      var v :| v in s.disk[name].spec.volumes && m == Target(pool, name, v);
      assert Rootfs(pool, name) + "/" <= m;
    }
  }
}

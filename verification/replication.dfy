/** Snapshot replication: the sender loop of a primary and the receivers on its standbys. */
module Replication {
  import opened Text

  // ---------- snapshots and streams ----------

  /** A volume's contents, block by block. */
  type Content = map<nat, int>

  datatype Delta = Delta(write: Content, drop: set<nat>)

  function Diff(from: Content, to: Content): Delta {
    Delta(map b | b in to && (b !in from || from[b] != to[b]) :: to[b], set b | b in from && b !in to)
  }

  function Patch(base: Content, d: Delta): Content {
    (base - d.drop) + d.write
  }

  lemma PatchDiff(from: Content, to: Content)
    ensures Patch(from, Diff(from, to)) == to
  {
  }

  type Snapshots = map<string, Content>

  datatype Stream =
    | Full(snapshot: string, content: Content)
    | Incremental(snapshot: string, base: string, delta: Delta)

  /** `zfs send`: fails unless the snapshot, and the base if there is one, still exist. */
  function Send(snaps: Snapshots, snapshot: string, base: Option<string>): Option<Stream> {
    if snapshot !in snaps then None
    else
      match base
      case None => Some(Full(snapshot, snaps[snapshot]))
      case Some(b) => if b !in snaps then None else Some(Incremental(snapshot, b, Diff(snaps[b], snaps[snapshot])))
  }

  /** `zfs receive`: an incremental stream needs its base on the receiving side and changes that base's blocks. */
  function Receive(snaps: Snapshots, s: Stream): Option<Snapshots> {
    match s
    case Full(id, content) => Some(snaps[id := content])
    case Incremental(id, base, delta) =>
      if base !in snaps then None else Some(snaps[id := Patch(snaps[base], delta)])
  }

  // ---------- one replica's sender and one standby ----------

  datatype Sender = Sender(tick: nat, confirmed: Option<string>, snaps: Snapshots)

  /** A standby's view of one replica: whether it has been contacted, its last complete snapshot, and its snapshots. */
  datatype Standby = Standby(known: bool, last: Option<string>, snaps: Snapshots)

  const Blank := Standby(false, None, map[])

  function SnapshotId(tick: nat): string { "keel-repl-" + Decimal(tick) }

  lemma SnapshotIdInjective(a: nat, b: nat)
    ensures SnapshotId(a) == SnapshotId(b) <==> a == b
  {
    if SnapshotId(a) == SnapshotId(b) {
      var p := "keel-repl-";
      assert SnapshotId(a)[|p|..] == Decimal(a) && SnapshotId(b)[|p|..] == Decimal(b);
      ValueOfDecimal(a);
      ValueOfDecimal(b);
    }
  }

  /** What becomes of one tick's connection. */
  datatype Outcome =
    | SnapshotFailed
    | Unreached
    | AckLost
    /** The handshake completes; then whether the sender saw its send succeed, the stream arrived whole, the old base was pruned. */
    | Answered(sent: bool, received: bool, pruned: bool)

  /** The receiver's side once a header has arrived, and the stream that followed it, if one arrived whole. */
  function Handled(r: Standby, snapshot: string, base: Option<string>, arrived: Option<Stream>): Standby {
    var r1 := r.(known := true);
    if base != r.last || arrived.None? then r1
    else
      match Receive(r1.snaps, arrived.value)
      case None => r1
      case Some(snaps) => Standby(true, Some(snapshot), snaps)
  }

  /** The stream a sender produces, when it gets as far as sending. */
  function Transmitted(s: Sender, id: string, base: Option<string>, r: Standby, o: Outcome): Option<Stream> {
    if o.Answered? && base == r.last && o.received then Send(s.snaps, id, base) else None
  }

  function Pruned(snaps: Snapshots, previous: Option<string>, ok: bool): Snapshots {
    if previous.Some? && ok then snaps - {previous.value} else snaps
  }

  /** The sender's side of an exchange in which the standby's last snapshot is `last`. */
  function Concluded(s: Sender, id: string, last: Option<string>, o: Outcome): Sender {
    match o
    case Answered(sent, _, pruned) =>
      if s.confirmed != last then s.(confirmed := None)
      else if !sent || Send(s.snaps, id, s.confirmed).None? then s
      else s.(confirmed := Some(id), snaps := Pruned(s.snaps, s.confirmed, pruned))
    case _ => s
  }

  function Exchange(s: Sender, r: Standby, id: string, o: Outcome): (Sender, Standby) {
    if o.SnapshotFailed? || o.Unreached? then (s, r)
    else (Concluded(s, id, r.last, o), Handled(r, id, s.confirmed, Transmitted(s, id, s.confirmed, r, o)))
  }

  // ---------- runs ----------

  /** The volume, its sender, the standbys, and what the volume held when each snapshot was taken. */
  datatype World = World(volume: Content, sender: Sender, standbys: map<string, Standby>, taken: Snapshots)

  /** One tick: the volume's contents by then, where replication points, and how the connection goes. */
  datatype Tick = Tick(volume: Content, target: Option<string>, outcome: Outcome)

  function Ticked(w: World, t: Tick): World {
    var s := w.sender.(tick := w.sender.tick + 1);
    var id := SnapshotId(s.tick);
    if t.target.None? || t.outcome.SnapshotFailed? then w.(volume := t.volume, sender := s)
    else
      var s1 := s.(snaps := s.snaps[id := t.volume]);
      var w1 := World(t.volume, s1, w.standbys, w.taken[id := t.volume]);
      if t.target.value !in w.standbys then w1
      else
        var (s2, r2) := Exchange(s1, w.standbys[t.target.value], id, t.outcome);
        w1.(sender := s2, standbys := w.standbys[t.target.value := r2])
  }

  function Run(w: World, ticks: seq<Tick>, k: nat): World
    requires k <= |ticks|
  {
    if k == 0 then w else Ticked(Run(w, ticks, k - 1), ticks[k - 1])
  }

  /** The loop's start: no snapshot taken, every standby blank. */
  predicate Start(w: World) {
    && w.sender == Sender(0, None, map[]) && w.taken == map[]
    && forall a | a in w.standbys :: w.standbys[a] == Blank
  }

  predicate Faithful(snaps: Snapshots, taken: Snapshots) {
    forall id | id in snaps :: id in taken && snaps[id] == taken[id]
  }

  /** Every snapshot anywhere holds what the volume held when it was taken; confirmed bases exist on their side. */
  ghost predicate Good(w: World) {
    && Faithful(w.sender.snaps, w.taken)
    && (w.sender.confirmed.Some? ==> w.sender.confirmed.value in w.sender.snaps)
    && (forall a | a in w.standbys ::
          Faithful(w.standbys[a].snaps, w.taken) &&
          (w.standbys[a].last.Some? ==> w.standbys[a].last.value in w.standbys[a].snaps))
    && (forall id | id in w.taken :: exists k :: 1 <= k <= w.sender.tick && id == SnapshotId(k))
  }

  lemma FreshId(w: World)
    requires Good(w)
    ensures SnapshotId(w.sender.tick + 1) !in w.taken
  {
    hide SnapshotId;
    var id := SnapshotId(w.sender.tick + 1);
    if id in w.taken {
      var k :| 1 <= k <= w.sender.tick && id == SnapshotId(k);
      SnapshotIdInjective(k, w.sender.tick + 1);
    }
  }

  /** Accepted means the bases agree, and then the base is on both sides with the same contents: nothing fails for want of it. */
  lemma AcceptedFindsBase(s: Sender, r: Standby, id: string, taken: Snapshots)
    requires Faithful(s.snaps, taken) && Faithful(r.snaps, taken)
    requires id in s.snaps && s.confirmed == r.last
    requires s.confirmed.Some? ==> s.confirmed.value in s.snaps && r.last.value in r.snaps
    ensures var sent := Send(s.snaps, id, s.confirmed);
            && sent.Some?
            && Receive(r.snaps, sent.value) == Some(r.snaps[id := taken[id]])
  {
    if s.confirmed.Some? {
      var b := s.confirmed.value;
      PatchDiff(s.snaps[b], s.snaps[id]);
    }
  }

  lemma ExchangeKeeps(s: Sender, r: Standby, id: string, o: Outcome, taken: Snapshots)
    requires Faithful(s.snaps, taken) && Faithful(r.snaps, taken) && id in s.snaps
    requires s.confirmed.Some? ==> s.confirmed.value in s.snaps && s.confirmed.value != id
    requires r.last.Some? ==> r.last.value in r.snaps
    ensures var (s', r') := Exchange(s, r, id, o);
            && Faithful(s'.snaps, taken) && Faithful(r'.snaps, taken) && s'.tick == s.tick
            && (s'.confirmed.Some? ==> s'.confirmed.value in s'.snaps)
            && (r'.last.Some? ==> r'.last.value in r'.snaps)
  {
    hide Send, Receive;
    if s.confirmed == r.last { AcceptedFindsBase(s, r, id, taken); }
  }

  lemma StillFaithful(snaps: Snapshots, taken: Snapshots, id: string, c: Content)
    requires Faithful(snaps, taken) && id !in taken
    ensures Faithful(snaps, taken[id := c]) && Faithful(snaps[id := c], taken[id := c])
  {
  }

  lemma TickKeepsGood(w: World, t: Tick)
    requires Good(w)
    ensures Good(Ticked(w, t))
  {
    hide SnapshotId, Exchange, Faithful;
    FreshId(w);
    var id := SnapshotId(w.sender.tick + 1);
    var w' := Ticked(w, t);
    var taken := w.taken[id := t.volume];
    StillFaithful(w.sender.snaps, w.taken, id, t.volume);
    forall a | a in w.standbys ensures Faithful(w.standbys[a].snaps, taken) {
      StillFaithful(w.standbys[a].snaps, w.taken, id, t.volume);
    }
    if w.sender.confirmed.Some? { ConfirmedWasTaken(w); }
    if t.target.Some? && !t.outcome.SnapshotFailed? && t.target.value in w.standbys {
      var s1 := w.sender.(tick := w.sender.tick + 1, snaps := w.sender.snaps[id := t.volume]);
      ExchangeKeeps(s1, w.standbys[t.target.value], id, t.outcome, taken);
    }
    forall i | i in w'.taken ensures exists k :: 1 <= k <= w'.sender.tick && i == SnapshotId(k) {
      if i in w.taken {
        var k :| 1 <= k <= w.sender.tick && i == SnapshotId(k);
        assert 1 <= k <= w'.sender.tick && i == SnapshotId(k);
      } else {
        assert i == SnapshotId(w'.sender.tick);
      }
    }
  }

  lemma ConfirmedWasTaken(w: World)
    requires Good(w) && w.sender.confirmed.Some?
    ensures w.sender.confirmed.value in w.taken
  {
  }

  /** In any run from the start, retargeting and failing at will, every standby snapshot is the volume as it was taken. */
  lemma {:induction false} ReplicatedDataIsRight(w: World, ticks: seq<Tick>, k: nat)
    requires Start(w) && k <= |ticks|
    ensures Good(Run(w, ticks, k))
    ensures forall a, id | a in Run(w, ticks, k).standbys && id in Run(w, ticks, k).standbys[a].snaps ::
              id in Run(w, ticks, k).taken && Run(w, ticks, k).standbys[a].snaps[id] == Run(w, ticks, k).taken[id]
  {
    hide Ticked;
    if k > 0 {
      ReplicatedDataIsRight(w, ticks, k - 1);
      TickKeepsGood(Run(w, ticks, k - 1), ticks[k - 1]);
    }
  }

  /** The readiness a promotion asks for: the standby has recorded a complete snapshot. */
  predicate Ready(r: Standby) { r.known && r.last.Some? }

  /** A standby that answers ready in any run holds, under its last id, the volume as it was when that id was taken. */
  lemma ReadyStandbyHoldsSnapshot(w: World, ticks: seq<Tick>, k: nat, a: string)
    requires Start(w) && k <= |ticks| && a in Run(w, ticks, k).standbys && Ready(Run(w, ticks, k).standbys[a])
    ensures var w' := Run(w, ticks, k);
            var id := w'.standbys[a].last.value;
            id in w'.standbys[a].snaps && id in w'.taken && w'.standbys[a].snaps[id] == w'.taken[id]
  {
    hide Run;
    ReplicatedDataIsRight(w, ticks, k);
  }

  // ---------- bringing a standby up ----------

  predicate Delivered(t: Tick, a: string) {
    t.target == Some(a) && t.outcome == Answered(true, true, true)
  }

  /** The standby's last snapshot is the base the sender will use next. */
  predicate Synced(w: World, a: string) {
    a in w.standbys && w.sender.confirmed.Some? && w.standbys[a].last == w.sender.confirmed
  }

  /** A delivered tick to a standby that agrees with the sender on the base copies the volume to it. */
  lemma DeliveredCopies(w: World, t: Tick, a: string)
    requires Good(w) && a in w.standbys && Delivered(t, a) && w.sender.confirmed == w.standbys[a].last
    ensures var w', id := Ticked(w, t), SnapshotId(w.sender.tick + 1);
            && Synced(w', a) && w'.standbys[a].last == Some(id)
            && w'.standbys[a].snaps == w.standbys[a].snaps[id := t.volume]
            && w'.sender.snaps == Pruned(w.sender.snaps[id := t.volume], w.sender.confirmed, true)
  {
    hide SnapshotId, Send, Receive, Faithful;
    FreshId(w);
    var id := SnapshotId(w.sender.tick + 1);
    StillFaithful(w.sender.snaps, w.taken, id, t.volume);
    StillFaithful(w.standbys[a].snaps, w.taken, id, t.volume);
    var s1 := w.sender.(tick := w.sender.tick + 1, snaps := w.sender.snaps[id := t.volume]);
    AcceptedFindsBase(s1, w.standbys[a], id, w.taken[id := t.volume]);
  }

  /** A delivered tick to a standby that disagrees makes the sender forget its base and changes nothing over there. */
  lemma DeliveredRejected(w: World, t: Tick, a: string)
    requires a in w.standbys && Delivered(t, a) && w.sender.confirmed != w.standbys[a].last
    ensures var w' := Ticked(w, t);
            && w'.sender.confirmed == None && a in w'.standbys
            && w'.standbys[a] == w.standbys[a].(known := true)
  {
    hide SnapshotId;
  }

  /** Whatever base the sender holds, a blank standby has a full copy after at most two delivered ticks. */
  lemma BringUp(w: World, t: Tick, u: Tick, a: string)
    requires Good(w) && a in w.standbys && w.standbys[a].last.None? && Delivered(t, a) && Delivered(u, a)
    ensures var w1 := Ticked(w, t); var w2 := Ticked(w1, u);
            && (w.sender.confirmed.None? ==> Synced(w1, a) && w1.standbys[a].last.value in w1.standbys[a].snaps
                                             && w1.standbys[a].snaps[w1.standbys[a].last.value] == t.volume)
            && Synced(w2, a) && w2.standbys[a].last.value in w2.standbys[a].snaps
            && w2.standbys[a].snaps[w2.standbys[a].last.value] == u.volume
  {
    hide Ticked, SnapshotId, Good;
    TickKeepsGood(w, t);
    if w.sender.confirmed.None? {
      DeliveredCopies(w, t, a);
    } else {
      DeliveredRejected(w, t, a);
    }
    DeliveredCopies(Ticked(w, t), u, a);
  }

  /** Once synced, every delivered tick is taken as an incremental and the sender's snapshot count stays put. */
  lemma SteadyTick(w: World, t: Tick, a: string)
    requires Good(w) && Synced(w, a) && Delivered(t, a)
    ensures var w', id := Ticked(w, t), SnapshotId(w.sender.tick + 1);
            && Good(w') && Synced(w', a) && w'.standbys[a].last == Some(id)
            && w'.standbys[a].snaps == w.standbys[a].snaps[id := t.volume]
            && |w'.sender.snaps| == |w.sender.snaps|
  {
    hide SnapshotId, Ticked;
    TickKeepsGood(w, t);
    DeliveredCopies(w, t, a);
    FreshId(w);
    var id, base := SnapshotId(w.sender.tick + 1), w.sender.confirmed.value;
    ReplaceKeepsSize(w.sender.snaps, id, t.volume, base);
  }

  lemma ReplaceKeepsSize(snaps: Snapshots, id: string, c: Content, base: string)
    requires id !in snaps && base in snaps
    ensures |snaps[id := c] - {base}| == |snaps|
  {
    var m := snaps[id := c];
    assert m.Keys == snaps.Keys + {id};
    assert (m - {base}).Keys == m.Keys - {base};
  }

  lemma {:induction false} SteadyState(w: World, ticks: seq<Tick>, k: nat, a: string)
    requires Good(w) && Synced(w, a) && k <= |ticks|
    requires forall i | 0 <= i < |ticks| :: Delivered(ticks[i], a)
    ensures var w' := Run(w, ticks, k);
            && Good(w') && Synced(w', a) && |w'.sender.snaps| == |w.sender.snaps|
            && (k > 0 ==> w'.standbys[a].last.value in w'.standbys[a].snaps
                          && w'.standbys[a].snaps[w'.standbys[a].last.value] == ticks[k - 1].volume)
  {
    hide Ticked, SnapshotId, Good;
    if k > 0 {
      SteadyState(w, ticks, k - 1, a);
      SteadyTick(Run(w, ticks, k - 1), ticks[k - 1], a);
    }
  }

  // ---------- when a standby can be brought back ----------

  /** A standby that holds a snapshot the sender does not use as base. */
  predicate Wedged(w: World, a: string) {
    a in w.standbys && w.standbys[a].last.Some? && w.sender.confirmed != w.standbys[a].last
  }

  /** Whatever the tick, the sender's base afterwards is the old one, none, or the snapshot just taken. */
  lemma BaseAfter(w: World, t: Tick)
    ensures var base := Ticked(w, t).sender.confirmed;
            base == w.sender.confirmed || base.None? || base == Some(SnapshotId(w.sender.tick + 1))
  {
    hide SnapshotId, Send, Receive;
  }

  /** A standby that disagrees with the sender on the base takes nothing in, whichever standby the tick goes to. */
  lemma DisagreeingStandbyKeeps(w: World, t: Tick, a: string)
    requires a in w.standbys && w.sender.confirmed != w.standbys[a].last
    ensures var w' := Ticked(w, t);
            a in w'.standbys && w'.standbys[a].last == w.standbys[a].last && w'.standbys[a].snaps == w.standbys[a].snaps
  {
    hide SnapshotId, Send, Receive;
  }

  /** A new snapshot never bears the id of one a standby holds, so a wedged standby stays wedged. */
  lemma WedgedTick(w: World, t: Tick, a: string)
    requires Good(w) && Wedged(w, a)
    ensures var w' := Ticked(w, t);
            && Wedged(w', a) && w'.standbys[a].last == w.standbys[a].last && w'.standbys[a].snaps == w.standbys[a].snaps
  {
    hide Ticked, SnapshotId;
    FreshId(w);
    BaseAfter(w, t);
    DisagreeingStandbyKeeps(w, t, a);
  }

  /** Whatever ticks follow, to it or to any other standby, a wedged standby keeps the data it has. */
  lemma {:induction false} WedgedForever(w: World, ticks: seq<Tick>, k: nat, a: string)
    requires Good(w) && Wedged(w, a) && k <= |ticks|
    ensures var w' := Run(w, ticks, k);
            && Good(w') && Wedged(w', a)
            && w'.standbys[a].last == w.standbys[a].last && w'.standbys[a].snaps == w.standbys[a].snaps
  {
    hide Ticked, Good, Wedged;
    if k > 0 {
      WedgedForever(w, ticks, k - 1, a);
      TickKeepsGood(Run(w, ticks, k - 1), ticks[k - 1]);
      WedgedTick(Run(w, ticks, k - 1), ticks[k - 1], a);
    }
  }

  /** Some future, with retargeting away and back as it likes, brings the standby in step. */
  ghost predicate CanSync(w: World, a: string) {
    exists ticks :: Synced(Run(w, ticks, |ticks|), a)
  }

  /** A standby can be brought in step exactly when it has no snapshot yet or its last one is the sender's base. */
  lemma SyncsIff(w: World, a: string)
    requires Good(w) && a in w.standbys
    ensures CanSync(w, a) <==> w.standbys[a].last.None? || w.standbys[a].last == w.sender.confirmed
  {
    hide Ticked, Good;
    var t := Tick(map[], Some(a), Answered(true, true, true));
    if w.standbys[a].last.None? {
      BringUp(w, t, t, a);
      var ticks := [t, t];
      assert Run(w, ticks, 1) == Ticked(w, t) && Run(w, ticks, 2) == Ticked(Ticked(w, t), t);
      assert Synced(Run(w, ticks, |ticks|), a);
    } else if w.standbys[a].last == w.sender.confirmed {
      var none: seq<Tick> := [];
      assert Synced(Run(w, none, |none|), a);
    } else {
      forall ticks ensures !Synced(Run(w, ticks, |ticks|), a) {
        WedgedForever(w, ticks, |ticks|, a);
      }
    }
  }

  /** A send the sender took for complete but the standby did not receive whole is never made good, by any ticks. */
  lemma LostStreamWedges(w: World, t: Tick, a: string)
    requires Good(w) && Synced(w, a) && t.target == Some(a) && t.outcome.Answered? && t.outcome.sent && !t.outcome.received
    ensures Wedged(Ticked(w, t), a) && !CanSync(Ticked(w, t), a)
  {
    hide Send, Receive, SnapshotId, Faithful;
    FreshId(w);
    TickKeepsGood(w, t);
    ConfirmedWasTaken(w);
    var id := SnapshotId(w.sender.tick + 1);
    StillFaithful(w.sender.snaps, w.taken, id, t.volume);
    StillFaithful(w.standbys[a].snaps, w.taken, id, t.volume);
    var s1 := w.sender.(tick := w.sender.tick + 1, snaps := w.sender.snaps[id := t.volume]);
    AcceptedFindsBase(s1, w.standbys[a], id, w.taken[id := t.volume]);
    SyncsIff(Ticked(w, t), a);
  }

  // ---------- which ticks keep a standby in step ----------

  /**
    * What a tick must not do if standby `a` is to stay in step: to it, believe sent what was not received or the other way
    * round; to another standby, get an answer that moves the sender's base.
    */
  predicate Agrees(w: World, t: Tick, a: string) {
    t.target.Some? && t.target.value in w.standbys && t.outcome.Answered? ==>
      if t.target.value == a then t.outcome.sent == t.outcome.received
      else w.standbys[t.target.value].last == w.sender.confirmed && !t.outcome.sent
  }

  /** The two sides after an answered exchange on an agreed base. */
  lemma AnsweredOnAgreedBase(w: World, t: Tick, b: string)
    requires Good(w) && b in w.standbys && t.target == Some(b) && t.outcome.Answered? && w.standbys[b].last == w.sender.confirmed
    ensures var w', id := Ticked(w, t), SnapshotId(w.sender.tick + 1);
            && w'.sender.confirmed == (if t.outcome.sent then Some(id) else w.sender.confirmed)
            && w'.standbys.Keys == w.standbys.Keys
            && w'.standbys[b].last == (if t.outcome.received then Some(id) else w.standbys[b].last)
            && forall a | a in w.standbys && a != b :: w'.standbys[a] == w.standbys[a]
  {
    hide SnapshotId, Send, Receive, Faithful;
    FreshId(w);
    var id := SnapshotId(w.sender.tick + 1);
    StillFaithful(w.sender.snaps, w.taken, id, t.volume);
    StillFaithful(w.standbys[b].snaps, w.taken, id, t.volume);
    var s1 := w.sender.(tick := w.sender.tick + 1, snaps := w.sender.snaps[id := t.volume]);
    AcceptedFindsBase(s1, w.standbys[b], id, w.taken[id := t.volume]);
  }

  /** A connection that fails, or a snapshot that does, leaves the sender's base and every standby's last snapshot alone. */
  lemma UnansweredChangesNoBase(w: World, t: Tick)
    requires t.target.Some? && t.target.value in w.standbys ==> !t.outcome.Answered?
    ensures var w' := Ticked(w, t);
            && w'.sender.confirmed == w.sender.confirmed && w'.standbys.Keys == w.standbys.Keys
            && forall a | a in w.standbys :: w'.standbys[a].last == w.standbys[a].last && w'.standbys[a].snaps == w.standbys[a].snaps
  {
    hide SnapshotId, Send, Receive;
  }

  /** From a standby in step, any tick, to it or to another, leaves it in step, and able to be, exactly when it agrees. */
  lemma StaysSyncedIff(w: World, t: Tick, a: string)
    requires Good(w) && Synced(w, a)
    ensures Synced(Ticked(w, t), a) <==> Agrees(w, t, a)
    ensures CanSync(Ticked(w, t), a) <==> Agrees(w, t, a)
  {
    hide Ticked, SnapshotId, Good;
    var w' := Ticked(w, t);
    FreshBase(w);
    TickKeepsGood(w, t);
    if t.target.None? || t.target.value !in w.standbys || !t.outcome.Answered? {
      UnansweredChangesNoBase(w, t);
    } else if w.standbys[t.target.value].last == w.sender.confirmed {
      AnsweredOnAgreedBase(w, t, t.target.value);
    } else {
      AnsweredOnOtherBase(w, t, t.target.value);
    }
    SyncsIff(w', a);
  }

  lemma FreshBase(w: World)
    requires Good(w) && w.sender.confirmed.Some?
    ensures w.sender.confirmed != Some(SnapshotId(w.sender.tick + 1))
  {
    hide SnapshotId;
    FreshId(w);
    ConfirmedWasTaken(w);
  }

  lemma AnsweredOnOtherBase(w: World, t: Tick, b: string)
    requires b in w.standbys && t.target == Some(b) && t.outcome.Answered? && w.standbys[b].last != w.sender.confirmed
    ensures var w' := Ticked(w, t);
            && w'.sender.confirmed == None && w'.standbys.Keys == w.standbys.Keys
            && forall a | a in w.standbys :: w'.standbys[a].last == w.standbys[a].last
  {
    hide SnapshotId, Send, Receive;
  }

  /** Over any run, with failures and retargeting at will: in step at the end exactly when every tick agreed. */
  lemma {:induction false} RunStaysSyncedIff(w: World, ticks: seq<Tick>, k: nat, a: string)
    requires Good(w) && Synced(w, a) && k <= |ticks|
    ensures Good(Run(w, ticks, k)) && a in Run(w, ticks, k).standbys
    ensures Synced(Run(w, ticks, k), a) <==> forall i | 0 <= i < k :: Agrees(Run(w, ticks, i), ticks[i], a)
    ensures CanSync(Run(w, ticks, k), a) <==> Synced(Run(w, ticks, k), a)
  {
    hide Ticked, Good, Agrees, CanSync;
    if k > 0 {
      RunStaysSyncedIff(w, ticks, k - 1, a);
      var w1 := Run(w, ticks, k - 1);
      TickKeepsGood(w1, ticks[k - 1]);
      TickKeepsStandbys(w1, ticks[k - 1]);
      if Synced(w1, a) {
        StaysSyncedIff(w1, ticks[k - 1], a);
      } else {
        StaysLost(w1, ticks[k - 1], a);
      }
    } else {
      SyncsIff(w, a);
    }
  }

  lemma TickKeepsStandbys(w: World, t: Tick)
    ensures Ticked(w, t).standbys.Keys == w.standbys.Keys
  {
    hide SnapshotId, Exchange;
  }

  lemma StaysLost(w: World, t: Tick, a: string)
    requires Good(w) && a in w.standbys && !CanSync(w, a)
    ensures !CanSync(Ticked(w, t), a) && !Synced(Ticked(w, t), a)
  {
    hide Ticked, Good;
    SyncsIff(w, a);
    WedgedTick(w, t, a);
    TickKeepsGood(w, t);
    SyncsIff(Ticked(w, t), a);
  }

  // ---------- how many snapshots the sender keeps ----------

  predicate Takes(t: Tick) { t.target.Some? && !t.outcome.SnapshotFailed? }

  /** The tick's send counted as complete, had a base, and pruning that base worked. */
  predicate Prunes(w: World, t: Tick) {
    && Takes(t) && t.target.value in w.standbys && t.outcome.Answered? && t.outcome.sent && t.outcome.pruned
    && w.sender.confirmed.Some? && w.standbys[t.target.value].last == w.sender.confirmed
  }

  lemma SnapshotsAfter(w: World, t: Tick)
    requires Good(w)
    ensures Prunes(w, t) ==> Takes(t) && w.sender.confirmed.Some?
    ensures var more := w.sender.snaps[SnapshotId(w.sender.tick + 1) := t.volume];
            Ticked(w, t).sender.snaps ==
            if !Takes(t) then w.sender.snaps else if Prunes(w, t) then more - {w.sender.confirmed.value} else more
  {
    hide SnapshotId, Send, Receive, Faithful;
    FreshId(w);
    if Takes(t) && t.target.value in w.standbys && w.standbys[t.target.value].last == w.sender.confirmed {
      var id, b := SnapshotId(w.sender.tick + 1), t.target.value;
      StillFaithful(w.sender.snaps, w.taken, id, t.volume);
      StillFaithful(w.standbys[b].snaps, w.taken, id, t.volume);
      var s1 := w.sender.(tick := w.sender.tick + 1, snaps := w.sender.snaps[id := t.volume]);
      AcceptedFindsBase(s1, w.standbys[b], id, w.taken[id := t.volume]);
    }
  }

  /** A tick that takes a snapshot adds one unless it prunes: the snapshots of failed sends are never removed. */
  lemma SnapshotCount(w: World, t: Tick)
    requires Good(w)
    ensures |Ticked(w, t).sender.snaps| == |w.sender.snaps| + if Takes(t) && !Prunes(w, t) then 1 else 0
  {
    hide SnapshotId, Ticked, Good, Takes, Prunes;
    SnapshotsAfter(w, t);
    FreshSnap(w);
    var id := SnapshotId(w.sender.tick + 1);
    OneMore(w.sender.snaps, id, t.volume);
    if Prunes(w, t) { PrunesItsOwn(w, t, id); }
  }

  lemma OneMore(snaps: Snapshots, id: string, c: Content)
    requires id !in snaps
    ensures |snaps[id := c]| == |snaps| + 1
  {
    assert snaps[id := c].Keys == snaps.Keys + {id};
  }

  lemma PrunesItsOwn(w: World, t: Tick, id: string)
    requires Good(w) && Prunes(w, t) && id !in w.sender.snaps
    ensures w.sender.confirmed.Some? && Takes(t)
    ensures |w.sender.snaps[id := t.volume] - {w.sender.confirmed.value}| == |w.sender.snaps|
  {
    ReplaceKeepsSize(w.sender.snaps, id, t.volume, w.sender.confirmed.value);
  }

  lemma FreshSnap(w: World)
    requires Good(w)
    ensures SnapshotId(w.sender.tick + 1) !in w.sender.snaps
  {
    hide SnapshotId;
    FreshId(w);
  }

  // ---------- the two ends as objects ----------

  const ACK_PROCEED: nat := 0
  const ACK_NEED_FULL: nat := 1

  datatype ReplicaTarget = ReplicaTarget(dataset: string, source: string, last: Option<string>)

  function Dataset(pool: string, replica: string): string {
    pool + "/keel/volumes/" + (replica + "-data")
  }

  lemma DatasetInjective(pool: string, a: string, b: string)
    requires Dataset(pool, a) == Dataset(pool, b)
    ensures a == b
  {
    var p := pool + "/keel/volumes/";
    assert Dataset(pool, a)[|p|..] == a + "-data" && Dataset(pool, b)[|p|..] == b + "-data";
    assert (a + "-data")[..|a|] == a && (b + "-data")[..|b|] == b;
  }

  /** The receiving end on a node: what is known of each replica, and the datasets received so far. */
  class ReplicaTargetRegistry {
    const pool: string
    var byName: map<string, ReplicaTarget>
    var datasets: map<string, Snapshots>

    ghost function View(replica: string): Standby
      reads this
    {
      var d := Dataset(pool, replica);
      Standby(replica in byName, if replica in byName then byName[replica].last else None,
              if d in datasets then datasets[d] else map[])
    }

    constructor (poolName: string)
      ensures pool == poolName && forall replica :: View(replica) == Blank
    {
      pool, byName, datasets := poolName, map[], map[];
    }

    method Ensure(replica: string, dataset: string, source: string) returns (target: ReplicaTarget)
      modifies this
      ensures datasets == old(datasets)
      ensures target.last == if replica in old(byName) then old(byName)[replica].last else None
      ensures byName == old(byName)[replica := target]
      ensures target.source == source && target.dataset == if replica in old(byName) then old(byName)[replica].dataset else dataset
    {
      if replica !in byName {
        byName := byName[replica := ReplicaTarget(dataset, source, None)];
      }
      byName := byName[replica := byName[replica].(source := source)];
      target := byName[replica];
    }

    method RecordSnapshot(replica: string, snapshot: string)
      modifies this
      ensures datasets == old(datasets)
      ensures byName == if replica in old(byName)
                        then old(byName)[replica := old(byName)[replica].(last := Some(snapshot))] else old(byName)
    {
      if replica in byName {
        byName := byName[replica := byName[replica].(last := Some(snapshot))];
      }
    }

    /** One connection: reject unless the bases agree, otherwise receive what arrives and record it only if it is whole. */
    method HandleConnection(replica: string, snapshot: string, base: Option<string>, source: string, arrived: Option<Stream>)
      returns (ack: nat)
      modifies this
      ensures ack == if base == old(View(replica)).last then ACK_PROCEED else ACK_NEED_FULL
      ensures View(replica) == Handled(old(View(replica)), snapshot, base, arrived)
      ensures base != old(View(replica)).last || arrived.None? ==> View(replica) == old(View(replica)).(known := true)
      ensures forall other | other != replica :: View(other) == old(View(other))
    {
      hide Receive, Dataset;
      forall other | other != replica ensures Dataset(pool, other) != Dataset(pool, replica) {
        if Dataset(pool, other) == Dataset(pool, replica) { DatasetInjective(pool, other, replica); }
      }
      var dataset := Dataset(pool, replica);
      var target := Ensure(replica, dataset, source);
      if base != target.last { return ACK_NEED_FULL; }
      ack := ACK_PROCEED;
      if arrived.Some? {
        var received := Receive(if dataset in datasets then datasets[dataset] else map[], arrived.value);
        if received.Some? {
          datasets := datasets[dataset := received.value];
          RecordSnapshot(replica, snapshot);
        }
      }
    }
  }

  datatype SendResult = Sent | NeedFull | Io

  /** The sending end: one replica's loop. */
  class SenderLoop {
    const replica: string
    var tick: nat
    var lastConfirmedSent: Option<string>
    var snaps: Snapshots

    ghost function Value(): Sender
      reads this
    {
      Sender(tick, lastConfirmedSent, snaps)
    }

    constructor (name: string)
      ensures replica == name && Value() == Sender(0, None, map[])
    {
      replica, tick, lastConfirmedSent, snaps := name, 0, None, map[];
    }

    method SendOnce(to: ReplicaTargetRegistry, snapshot: string, o: Outcome) returns (r: SendResult)
      modifies to
      ensures var before := old(to.View(replica));
              && (r.NeedFull? <==> o.Answered? && lastConfirmedSent != before.last)
              && (r.Sent? <==> o.Answered? && lastConfirmedSent == before.last && o.sent
                               && Send(snaps, snapshot, lastConfirmedSent).Some?)
              && to.View(replica) == Exchange(Value(), before, snapshot, o).1
      ensures forall other | other != replica :: to.View(other) == old(to.View(other))
    {
      hide Send, Receive, Dataset;
      if o.SnapshotFailed? || o.Unreached? { return Io; }
      var stream := Send(snaps, snapshot, lastConfirmedSent);
      var arrived := if o.Answered? && o.received then stream else None;
      var ack := to.HandleConnection(replica, snapshot, lastConfirmedSent, "", arrived);
      if o.AckLost? { return Io; }
      if ack == ACK_NEED_FULL { return NeedFull; }
      r := if o.sent && stream.Some? then Sent else Io;
    }

    /** One turn of the loop towards the node replication points at. */
    method Tick(volume: Content, to: ReplicaTargetRegistry, o: Outcome)
      modifies this, to
      ensures var s := old(Value()).(tick := old(tick) + 1);
              var id := SnapshotId(s.tick);
              if o.SnapshotFailed? then Value() == s && to.View(replica) == old(to.View(replica))
              else (Value(), to.View(replica)) == Exchange(s.(snaps := s.snaps[id := volume]), old(to.View(replica)), id, o)
      ensures !o.Answered? ==> lastConfirmedSent == old(lastConfirmedSent)
      ensures forall other | other != replica :: to.View(other) == old(to.View(other))
    {
      hide Send, Receive, SnapshotId, Handled, Dataset;
      tick := tick + 1;
      var id := SnapshotId(tick);
      if o.SnapshotFailed? { return; }
      snaps := snaps[id := volume];
      var r := SendOnce(to, id, o);
      match r
      case Sent =>
        if lastConfirmedSent.Some? && o.pruned { snaps := snaps - {lastConfirmedSent.value}; }
        lastConfirmedSent := Some(id);
      case NeedFull => lastConfirmedSent := None;
      case Io =>
    }
  }
}

/** After a round the tables show exactly the calls that were confirmed. */
module Rounds {
  import opened Text
  import opened Addresses
  import opened Plan
  import opened PlanAddresses
  import opened Protocol

  predicate SameStandby(a: State, b: State, name: string) {
    (name in a.standbys <==> name in b.standbys) && (name in a.standbys ==> a.standbys[name] == b.standbys[name])
  }

  /** Nothing about this replica differs: placement, address, standby, or the nodes that hold it. */
  ghost predicate SameEntries(a: State, b: State, name: string) {
    && (name in a.placements <==> name in b.placements) && (name in a.placements ==> a.placements[name] == b.placements[name])
    && (name in a.used.byJail <==> name in b.used.byJail) && (name in a.used.byJail ==> a.used.byJail[name] == b.used.byJail[name])
    && SameStandby(a, b, name)
    && (forall n :: (n, name) in a.jails <==> (n, name) in b.jails)
  }

  /** The action's result is on record: where the replica runs, its address and standby, or that it is gone. */
  ghost predicate OnRecord(before: State, after: State, a: Action) {
    match a
    case Schedule(_, _, node, address, standby) =>
      && Name(a) in after.placements && after.placements[Name(a)] == node
      && Name(a) in after.used.byJail && after.used.byJail[Name(a)] == (node, address)
      && (standby.Some? ==> Name(a) in after.standbys && after.standbys[Name(a)] == standby.value)
      && (standby.None? ==> SameStandby(before, after, Name(a)))
      && (forall n :: (n, Name(a)) in after.jails <==> n == node || (n, Name(a)) in before.jails)
    case TearDown(_, _, node) =>
      && Name(a) !in after.placements && Name(a) !in after.used.byJail && SameStandby(before, after, Name(a))
      && (forall n :: (n, Name(a)) in after.jails <==> n != node && (n, Name(a)) in before.jails)
  }

  lemma OtherActionKeeps(st: State, a: Action, ok: bool, name: string)
    requires name != Name(a)
    ensures SameEntries(st, ExecAction(st, a, ok), name)
  {
    hide Name;
    if a.Schedule? { RecordedEntries(st.used, Name(a), a.node, a.address); }
  }

  lemma OwnActionRecords(before: State, st: State, a: Action)
    requires SameEntries(before, st, Name(a))
    ensures OnRecord(before, ExecAction(st, a, true), a)
  {
    hide Name;
    if a.Schedule? { RecordedEntries(st.used, Name(a), a.node, a.address); }
  }

  lemma SameEntriesCompose(a: State, b: State, c: State, name: string)
    requires SameEntries(a, b, name) && SameEntries(b, c, name)
    ensures SameEntries(a, c, name)
  {
  }

  lemma OnRecordStays(before: State, b: State, c: State, a: Action)
    requires OnRecord(before, b, a) && SameEntries(b, c, Name(a))
    ensures OnRecord(before, c, a)
  {
    hide Name;
  }

  lemma {:induction false} UntouchedSoFar(st: State, acts: seq<Action>, ok: nat -> bool, k: nat, name: string)
    requires k <= |acts| && forall j | 0 <= j < k :: Name(acts[j]) != name
    ensures SameEntries(st, Exec(st, acts, ok, k), name)
  {
    hide Name, ExecAction, SameEntries;
    if k > 0 {
      UntouchedSoFar(st, acts, ok, k - 1, name);
      OtherActionKeeps(Exec(st, acts, ok, k - 1), acts[k - 1], ok(k - 1), name);
      SameEntriesCompose(st, Exec(st, acts, ok, k - 1), Exec(st, acts, ok, k), name);
    } else {
      assert SameEntries(st, st, name) by { SameAsSelf(st, name); }
    }
  }

  lemma SameAsSelf(st: State, name: string)
    ensures SameEntries(st, st, name)
  {
  }

  lemma {:induction false} ShownAfter(st: State, acts: seq<Action>, ok: nat -> bool, k: nat, j: nat)
    requires DistinctNames(acts) && j < k <= |acts|
    ensures if ok(j) then OnRecord(st, Exec(st, acts, ok, k), acts[j]) else SameEntries(st, Exec(st, acts, ok, k), Name(acts[j]))
    decreases k
  {
    hide Name, SameEntries, OnRecord;
    var r := Exec(st, acts, ok, k - 1);
    if k == j + 1 {
      UntouchedSoFar(st, acts, ok, j, Name(acts[j]));
      if ok(j) { OwnActionRecords(st, r, acts[j]); }
    } else {
      ShownAfter(st, acts, ok, k - 1, j);
      OtherActionKeeps(r, acts[k - 1], ok(k - 1), Name(acts[j]));
      if ok(j) {
        OnRecordStays(st, r, Exec(st, acts, ok, k), acts[j]);
      } else {
        SameEntriesCompose(st, r, Exec(st, acts, ok, k), Name(acts[j]));
      }
    }
  }

  /** Of the actions of a round, the confirmed ones are on record in full and the others have left no trace. */
  lemma RoundShowsConfirmed(st: State, now: nat, ok: nat -> bool, j: nat)
    requires j < |PlanOf(st, now)|
    ensures var a, after := PlanOf(st, now)[j], Reconciled(st, now, ok);
            if ok(j) then OnRecord(st, after, a) else SameEntries(st, after, Name(a))
  {
    hide PlanOf, Exec, OnRecord, SameEntries, DistinctNames;
    PlanNamesDistinct(st, now);
    ShownAfter(st, PlanOf(st, now), ok, |PlanOf(st, now)|, j);
  }

  /** And replicas the plan does not name are as they were. */
  lemma RoundSparesOthers(st: State, now: nat, ok: nat -> bool, name: string)
    requires forall j | 0 <= j < |PlanOf(st, now)| :: Name(PlanOf(st, now)[j]) != name
    ensures SameEntries(st, Reconciled(st, now, ok), name)
  {
    hide PlanOf, Exec, SameEntries;
    UntouchedSoFar(st, PlanOf(st, now), ok, |PlanOf(st, now)|, name);
  }
}

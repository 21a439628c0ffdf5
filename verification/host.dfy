/** The node's four managers and its state store. Every call can fail, fail after taking effect, or be cut off by a crash. */
module Host {
  import opened Text
  import opened Services
  import opened Machine

  datatype Fate = Fine | Fails | FailsLate | Crash

  datatype Reply = Done | NotFound | Failed | Crashed

  datatype Answer = Yes | No | Unanswered | CutOff

  /** A request to a manager: the state it aims at, and its answer if it cannot be met at all. */
  datatype Call = Call(effect: State, refusal: Option<Reply>)

  function Refuse(s: State, when: bool, reply: Reply, effect: State): Call {
    if when then Call(s, Some(reply)) else Call(effect, None)
  }

  function CloneFromBase(s: State, base: string, target: string): Call {
    Refuse(s, base !in s.datasets || target in s.datasets, Failed, s.(datasets := s.datasets + {target}))
  }

  function CreateVolume(s: State, dataset: string): Call {
    Refuse(s, dataset in s.datasets, Failed, s.(datasets := s.datasets + {dataset}))
  }

  function DestroyDataset(s: State, dataset: string): Call {
    if dataset !in s.datasets then Call(s, Some(NotFound))
    else Refuse(s, Busy(s, dataset), Failed, s.(datasets := s.datasets - {dataset}))
  }

  function CreateJail(s: State, jail: string, rootfs: string): Call {
    Call(s.(jails := s.jails[jail := Jail(rootfs, false, [])]), None)
  }

  function StartCommand(s: State, jail: string, command: seq<string>): Call {
    if jail !in s.jails then Call(s, Some(NotFound))
    else Call(s.(jails := s.jails[jail := s.jails[jail].(running := true, command := command)]), None)
  }

  function DestroyJail(s: State, jail: string): Call {
    Refuse(s, jail !in s.jails, NotFound, s.(jails := s.jails - {jail}))
  }

  function SetLimits(s: State, jail: string, resources: string): Call {
    Refuse(s, jail !in s.jails, NotFound, s.(limits := s.limits[jail := resources]))
  }

  function RemoveLimits(s: State, jail: string): Call {
    Refuse(s, jail !in s.limits, NotFound, s.(limits := s.limits - {jail}))
  }

  /** Mounting over a mount would hide it; here it is refused. */
  function MountVolume(s: State, dataset: string, target: string): Call {
    Refuse(s, target in s.mounts, Failed, s.(mounts := s.mounts[target := dataset]))
  }

  function Unmount(s: State, target: string): Call {
    Refuse(s, target !in s.mounts, NotFound, s.(mounts := s.mounts - {target}))
  }

  function AttachJail(s: State, epair: string, link: Link): Call {
    Call(s.(epairs := s.epairs[epair := link]), None)
  }

  function DetachJail(s: State, epair: string): Call {
    Call(s.(epairs := s.epairs - {epair}), None)
  }

  /** Making a mount point or a bridge: nothing this model keeps track of. */
  function Prepare(s: State): Call {
    Call(s, None)
  }

  class OperatingSystem {
    const pool: string
    ghost const foreign: set<string>
    const fates: nat -> Fate
    var calls: nat
    var s: State

    ghost predicate Ok()
      reads this
    {
      Covered(pool, foreign, s)
    }

    /** No call since number `from` has gone wrong. */
    ghost predicate Smooth(from: nat)
      reads this
    {
      forall k | from <= k < calls :: fates(k).Fine?
    }

    /** From call `from` on, `n` calls go well and the next one is cut off by a crash. */
    ghost predicate CrashesAfter(from: nat, n: nat) {
      (forall k | from <= k < from + n :: fates(k).Fine?) && fates(from + n).Crash?
    }

    constructor (poolName: string, datasets: set<string>, future: nat -> Fate)
      ensures pool == poolName && fates == future && calls == 0
      ensures s == State(datasets, map[], map[], map[], map[], map[])
      ensures Ok()
    {
      pool, foreign, fates, calls := poolName, datasets, future, 0;
      s := State(datasets, map[], map[], map[], map[], map[]);
    }

    /** One call, met by the fate that awaits it. A late failure has taken effect all the same. */
    method Invoke(c: Call) returns (r: Reply)
      requires c.refusal.Some? ==> c.refusal.value.NotFound? || c.refusal.value.Failed?
      modifies this
      ensures calls == old(calls) + 1
      ensures s == old(s) || (c.refusal.None? && s == c.effect)
      ensures r.Done? ==> c.refusal.None? && s == c.effect && fates(old(calls)).Fine?
      ensures r.NotFound? ==> c.refusal == Some(NotFound) && fates(old(calls)).Fine?
      ensures r.Crashed? <==> fates(old(calls)).Crash?
      ensures fates(old(calls)).Fine? ==> r == if c.refusal.Some? then c.refusal.value else Done
    {
      var fate := fates(calls);
      calls := calls + 1;
      match fate
      case Crash => r := Crashed;
      case Fails => r := Failed;
      case FailsLate =>
        if c.refusal.None? { s := c.effect; }
        r := Failed;
      case Fine =>
        if c.refusal.None? { s := c.effect; r := Done; } else { r := c.refusal.value; }
    }

    method Ask(answer: bool) returns (r: Answer)
      modifies this`calls
      ensures calls == old(calls) + 1
      ensures r.CutOff? <==> fates(old(calls)).Crash?
      ensures r.Yes? ==> answer
      ensures r.No? ==> !answer
      ensures fates(old(calls)).Fine? <==> r.Yes? || r.No?
    {
      var fate := fates(calls);
      calls := calls + 1;
      match fate
      case Crash => r := CutOff;
      case Fine => r := if answer then Yes else No;
      case _ => r := Unanswered;
    }

    /** The store writes a temporary file and renames it: a record is replaced whole or not at all. */
    method Commit(disk: map<string, Record>) returns (r: Reply)
      modifies this
      ensures calls == old(calls) + 1
      ensures r.Done? ==> s == old(s).(disk := disk)
      ensures !r.Done? ==> s == old(s) && (r.Failed? || r.Crashed?)
      ensures fates(old(calls)).Fine? ==> r.Done?
      ensures r.Crashed? <==> fates(old(calls)).Crash?
    {
      var fate := fates(calls);
      calls := calls + 1;
      match fate
      case Crash => r := Crashed;
      case Fine => s := s.(disk := disk); r := Done;
      case _ => r := Failed;
    }
  }
}

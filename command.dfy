/**
 The command line: `prc24 [option] root_process process_id`. The program first asks
 whether process_id lies in the tree rooted at root_process and stops successfully
 when it does not; only then does it look at the option and run one operation, on
 root_process for the signal options and on process_id for the others.
 */
module Command {
  import opened ProcTable
  import opened Queries
  import opened Signals

  /** What an option asks for. */
  datatype Operation =
    | ShowIds                          // no option: print process_id and its parent
    | SignalTree(sig: int)             // -dx, -dt, -dc
    | KillTarget                       // -rp
    | ListNonDirect                    // -nd
    | ListImmediate                    // -dd
    | ListSiblings(defunctOnly: bool)  // -sb, -bz
    | ListZombieDescendants            // -zd
    | ListGrandchildren                // -gc
    | ShowStatus                       // -sz
    | KillZombieParents                // -kz

  /** The options the program recognises. */
  const Flags: map<string, Operation> := map[
    "-dx" := SignalTree(SIGKILL),
    "-dt" := SignalTree(SIGSTOP),
    "-dc" := SignalTree(SIGCONT),
    "-rp" := KillTarget,
    "-nd" := ListNonDirect,
    "-dd" := ListImmediate,
    "-sb" := ListSiblings(false),
    "-bz" := ListSiblings(true),
    "-zd" := ListZombieDescendants,
    "-gc" := ListGrandchildren,
    "-sz" := ShowStatus,
    "-kz" := KillZombieParents
  ]

  datatype Decision =
    | NotInTree                  // exits with success, nothing else done
    | InvalidOption(flag: string) // exits with failure
    | Perform(op: Operation)

  /**
   The dispatch of main. The tree test comes before the option is examined, so an
   unknown option is only reported for a process_id inside the tree.
   */
  function Decide(t: Table, root: int, target: int, option: Option<string>): (d: Decision)
    ensures d == NotInTree <==> !IsDescendant(t, root, target)
    ensures d.InvalidOption? <==> IsDescendant(t, root, target) && option.Some? && option.value !in Flags
    ensures d.InvalidOption? ==> d.flag == option.value
    ensures d.Perform? && option.None? ==> d.op == ShowIds
    ensures d.Perform? && option.Some? ==> option.value in Flags && d.op == Flags[option.value]
  {
    if !IsDescendant(t, root, target) then NotInTree
    else if option.None? then Perform(ShowIds)
    else if option.value in Flags then Perform(Flags[option.value])
    else InvalidOption(option.value)
  }

  /** Everything the program observes: the listing and records, kill successes, and one snapshot per signalling pass. */
  datatype Env = Env(pids: seq<int>, table: Table, accepts: set<int>, snaps: seq<Snapshot>)

  datatype Exit = Success | Failure

  /** What the program reports on standard output or standard error. */
  datatype Report =
    | Refused                            // not in the tree
    | Rejected(flag: string)             // invalid option
    | Ids(pid: int, ppid: int)           // no option
    | Signalled(passes: nat, aborted: bool)
    | Killed(delivered: bool)            // -rp
    | Listed(pids: seq<int>)             // -nd, -dd, -sb, -bz, -zd, -gc
    | Described(status: Status)          // -sz
    | Reaped(found: bool)                // -kz

  /** main after the argument count and the numeric conversion of the two pids. */
  method Run(env: Env, root: int, target: int, option: Option<string>)
    returns (exit: Exit, report: Report, sends: seq<Send>)
    requires MaxPasses <= |env.snaps|
    ensures var d := Decide(env.table, root, target, option);
      (exit == Failure <==> d.InvalidOption?) &&
      (d == NotInTree ==> report == Refused && sends == []) &&
      (d.InvalidOption? ==> report == Rejected(d.flag) && sends == [])
    ensures var t, pids := env.table, env.pids;
      match Decide(t, root, target, option)
      case Perform(ShowIds) =>
        target in t && report == Ids(target, t[target].ppid) && sends == []
      case Perform(SignalTree(sig)) =>
        var o := SignalRun(env.snaps, root, sig, root in env.accepts);
        report == Signalled(o.passes, o.aborted) && sends == o.log
      case Perform(KillTarget) =>
        report == Killed(target in env.accepts) && sends == [Send(target, SIGKILL, target in env.accepts)]
      case Perform(ListNonDirect) =>
        report == Listed(Scan(t, pids, NonDirectOf(target))) && sends == []
      case Perform(ListImmediate) =>
        report == Listed(Scan(t, pids, ChildOf(target))) && sends == []
      case Perform(ListSiblings(defunctOnly)) =>
        target in t && report == Listed(Scan(t, pids, SiblingOf(target, t[target].ppid, defunctOnly))) && sends == []
      case Perform(ListZombieDescendants) =>
        report == Listed(Scan(t, pids, DescendantOf(target, true))) && sends == []
      case Perform(ListGrandchildren) =>
        report == Listed(GrandchildScan(t, pids, pids, target)) && sends == []
      case Perform(ShowStatus) =>
        report == Described(ProcessStatus(t, target)) && report.status != Unknown && sends == []
      case Perform(KillZombieParents) =>
        sends == ReapLog(t, pids, target, env.accepts) && report == Reaped(Delivered(sends) > 0)
      case _ => true
  {
    var t, pids := env.table, env.pids;
    DescendantHasRecord(t, root, target);
    exit, sends := Success, [];
    var d := Decide(t, root, target, option);
    match d
    case NotInTree =>
      report := Refused;
    case InvalidOption(flag) =>
      exit, report := Failure, Rejected(flag);
    case Perform(op) =>
      match op
      case ShowIds =>
        report := Ids(target, t[target].ppid);
      case SignalTree(sig) =>
        var log, passes, aborted := SignalDescendants(env.snaps, root, sig, root in env.accepts);
        report, sends := Signalled(passes, aborted), log;
      case KillTarget =>
        var ok := target in env.accepts;
        report, sends := Killed(ok), [Send(target, SIGKILL, ok)];
      case ListNonDirect =>
        var out, _ := NonDirectDescendants(t, pids, target);
        report := Listed(out);
      case ListImmediate =>
        var out, _ := ImmediateDescendants(t, pids, target);
        report := Listed(out);
      case ListSiblings(defunctOnly) =>
        // The record was read by the tree test, so the sibling scan always finds it.
        var _, out, _ := Siblings(t, pids, target, defunctOnly);
        report := Listed(out);
      case ListZombieDescendants =>
        var out, _ := ZombieDescendants(t, pids, target, true);
        report := Listed(out);
      case ListGrandchildren =>
        var out, _ := Grandchildren(t, pids, target);
        report := Listed(out);
      case ShowStatus =>
        report := Described(ProcessStatus(t, target));
      case KillZombieParents =>
        var log, found := ZombieParKill(t, pids, target, env.accepts);
        report, sends := Reaped(found), log;
  }

  // ---------------------------------------------------------------------------
  // Properties of the dispatch.

  /** In a forest no process lies in the tree rooted at itself, so `prc24 -x p p` does nothing. */
  lemma SelfIsOutsideOwnTree(t: Table, p: int, option: Option<string>)
    requires Acyclic(t)
    ensures Decide(t, p, p, option) == NotInTree
  {
    NotOwnDescendant(t, p);
  }

  /** A process_id without a record is outside every tree, whatever the option. */
  lemma MissingIsOutsideTree(t: Table, root: int, target: int, option: Option<string>)
    requires target !in t
    ensures Decide(t, root, target, option) == NotInTree
  {
    DescendantCases(t, root, target);
  }

  /**
   The subtree listings of a process_id inside root's tree stay inside root's tree,
   unless process_id is 1 (the walk toward root stops at pid 1).
   */
  lemma ListingsStayInTree(t: Table, pids: seq<int>, root: int, target: int)
    requires IsDescendant(t, root, target) && target != 1
    ensures forall x :: x in Scan(t, pids, ChildOf(target)) ==> IsDescendant(t, root, x)
    ensures forall x :: x in Scan(t, pids, NonDirectOf(target)) ==> IsDescendant(t, root, x)
    ensures forall x :: x in Scan(t, pids, DescendantOf(target, true)) ==> IsDescendant(t, root, x)
  {
    forall x | IsDescendant(t, target, x)
      ensures IsDescendant(t, root, x)
    {
      DescendantTransitive(t, root, target, x);
    }
    ChildrenAreDescendants(t, pids, target);
    ScanMembers(t, pids, ChildOf(target));
    ScanMembers(t, pids, NonDirectOf(target));
    ScanMembers(t, pids, DescendantOf(target, true));
  }
}

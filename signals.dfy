/**
 Signal delivery over the process tree: the repeat-until-quiet signalling of a
 whole subtree, and the killing of zombies' parents.

 kill() is not modelled: each call is recorded as a Send in a log, together with
 whether the call succeeded, which the environment decides (a set of pids for which
 kill returns 0).
 */
module Signals {
  import opened ProcTable
  import opened Queries

  // Linux signal numbers.
  const SIGKILL: int := 9
  const SIGCONT: int := 18
  const SIGSTOP: int := 19

  /** The largest number of passes the retry loop makes. */
  const MaxPasses: nat := 10

  predicate ValidSignal(sig: int)
  {
    sig == SIGKILL || sig == SIGSTOP || sig == SIGCONT
  }

  /** One call kill(pid, sig) and whether it returned 0. */
  datatype Send = Send(pid: int, sig: int, delivered: bool)

  /** The number of successful kill calls in a log. */
  function Delivered(log: seq<Send>): (n: nat)
    ensures n <= |log|
    decreases |log|
  {
    if log == [] then 0
    else Delivered(log[..|log| - 1]) + (if log[|log| - 1].delivered then 1 else 0)
  }

  /** The count is zero exactly when no call in the log succeeded. */
  lemma {:induction false} NoneDelivered(log: seq<Send>)
    ensures Delivered(log) == 0 <==> forall i :: 0 <= i < |log| ==> !log[i].delivered
    decreases |log|
  {
    if log != [] {
      var n := |log| - 1;
      NoneDelivered(log[..n]);
      assert forall i :: 0 <= i < n ==> log[..n][i] == log[i];
    }
  }

  lemma DeliveredAppend(log: seq<Send>, s: Send)
    ensures Delivered(log + [s]) == Delivered(log) + (if s.delivered then 1 else 0)
  {
    assert (log + [s])[..|log|] == log;
  }

  /** Signal each target in turn; the kill succeeds for the pids in `accepts`. */
  function Notify(targets: seq<int>, sig: int, accepts: set<int>): seq<Send>
  {
    seq(|targets|, i requires 0 <= i < |targets| => Send(targets[i], sig, targets[i] in accepts))
  }

  lemma NotifyAppend(targets: seq<int>, x: int, sig: int, accepts: set<int>)
    ensures Notify(targets + [x], sig, accepts) == Notify(targets, sig, accepts) + [Send(x, sig, x in accepts)]
  {
    var l, r := Notify(targets + [x], sig, accepts), Notify(targets, sig, accepts) + [Send(x, sig, x in accepts)];
    assert |l| == |r|;
    forall i | 0 <= i < |l|
      ensures l[i] == r[i]
    {
      if i < |targets| {
        assert (targets + [x])[i] == targets[i];
      }
    }
  }

  /**
   What one pass of the loop observes: Unreadable if /proc could not be opened,
   otherwise the listing, the records, and the pids for which kill succeeds.
   */
  datatype Snapshot =
    | Unreadable
    | Snapshot(pids: seq<int>, table: Table, accepts: set<int>)

  /** The sends of one pass: every listed descendant of root other than root itself. */
  function PassSends(snap: Snapshot, root: int, sig: int): seq<Send>
    requires snap.Snapshot?
  {
    Notify(Scan(snap.table, snap.pids, SignalTargetOf(root)), sig, snap.accepts)
  }

  /** The log of a run, how many passes were started, and whether /proc could not be opened. */
  datatype Outcome = Outcome(log: seq<Send>, passes: nat, aborted: bool)

  function Prepend(log: seq<Send>, o: Outcome): Outcome
  {
    Outcome(log + o.log, o.passes, o.aborted)
  }

  /**
   The do-while loop from pass k on: a pass whose snapshot is unreadable ends the
   run; otherwise, after its sends, another pass follows if at least one kill
   succeeded and fewer than MaxPasses passes have been made.
   */
  function Passes(snaps: seq<Snapshot>, root: int, sig: int, k: nat): (o: Outcome)
    requires k < MaxPasses <= |snaps|
    ensures k < o.passes <= MaxPasses
    decreases MaxPasses - k
  {
    if snaps[k].Unreadable? then Outcome([], k + 1, true)
    else
      var sends := PassSends(snaps[k], root, sig);
      if Delivered(sends) > 0 && k + 1 < MaxPasses then
        Prepend(sends, Passes(snaps, root, sig, k + 1))
      else
        Outcome(sends, k + 1, false)
  }

  /**
   signal_descendants: nothing for a signal other than KILL, STOP or CONT;
   otherwise the loop, and then, for KILL and unless /proc could not be opened,
   one kill of root itself (rootOk says whether it succeeds).
   */
  function SignalRun(snaps: seq<Snapshot>, root: int, sig: int, rootOk: bool): (o: Outcome)
    requires MaxPasses <= |snaps|
    ensures o.passes == 0 <==> !ValidSignal(sig)
    ensures o.passes <= MaxPasses
    ensures !ValidSignal(sig) ==> o.log == [] && !o.aborted
  {
    if !ValidSignal(sig) then Outcome([], 0, false)
    else
      var o := Passes(snaps, root, sig, 0);
      if sig == SIGKILL && !o.aborted then Outcome(o.log + [Send(root, SIGKILL, rootOk)], o.passes, false)
      else o
  }

  /**
   One pass of the loop body: scan the listing and signal every listed descendant of
   root other than root, counting the kills that succeed.
   */
  method SignalPass(pids: seq<int>, table: Table, accepts: set<int>, root: int, sig: int)
    returns (sent: seq<Send>, count: nat)
    ensures sent == PassSends(Snapshot(pids, table, accepts), root, sig)
    ensures count == Delivered(sent)
  {
    sent, count := [], 0;
    var i := 0;
    while i < |pids|
      invariant 0 <= i <= |pids|
      invariant sent == Notify(Scan(table, pids[..i], SignalTargetOf(root)), sig, accepts)
      invariant count == Delivered(sent)
    {
      var pid := pids[i];
      NotifyStep(table, pids, i, root, sig, accepts);
      if pid != root && IsDescendant(table, root, pid) {
        var ok := pid in accepts;
        DeliveredAppend(sent, Send(pid, sig, ok));
        sent := sent + [Send(pid, sig, ok)];
        if ok {
          count := count + 1;
        }
      }
      i := i + 1;
    }
    assert pids[..i] == pids;
  }

  /** Scanning pids[i] appends its send exactly when it is a target. */
  lemma NotifyStep(table: Table, pids: seq<int>, i: nat, root: int, sig: int, accepts: set<int>)
    requires i < |pids|
    ensures var x := pids[i];
      Notify(Scan(table, pids[..i + 1], SignalTargetOf(root)), sig, accepts) ==
        Notify(Scan(table, pids[..i], SignalTargetOf(root)), sig, accepts)
        + (if x != root && IsDescendant(table, root, x) then [Send(x, sig, x in accepts)] else [])
  {
    var x := pids[i];
    assert pids[..i + 1] == pids[..i] + [x];
    ScanSnoc(table, pids[..i], x, SignalTargetOf(root));
    NotifyAppend(Scan(table, pids[..i], SignalTargetOf(root)), x, sig, accepts);
  }

  method SignalDescendants(snaps: seq<Snapshot>, root: int, sig: int, rootOk: bool)
    returns (log: seq<Send>, passes: nat, aborted: bool)
    requires MaxPasses <= |snaps|
    ensures Outcome(log, passes, aborted) == SignalRun(snaps, root, sig, rootOk)
    ensures !ValidSignal(sig) ==> log == [] && passes == 0
    ensures ValidSignal(sig) ==> 1 <= passes <= MaxPasses
    ensures forall i :: 0 <= i < |log| && log[i].pid == root ==> i == |log| - 1 && sig == SIGKILL
  {
    log, passes, aborted := [], 0, false;
    if !ValidSignal(sig) {
      return;
    }
    var done := false;
    while !done
      invariant passes <= MaxPasses
      invariant !done ==> passes < MaxPasses && !aborted &&
                          Passes(snaps, root, sig, 0) == Prepend(log, Passes(snaps, root, sig, passes))
      invariant done ==> Passes(snaps, root, sig, 0) == Outcome(log, passes, aborted)
      decreases MaxPasses - passes
    {
      match snaps[passes]
      case Unreadable =>
        passes, aborted, done := passes + 1, true, true;
      case Snapshot(pids, table, accepts) =>
        var sent, count := SignalPass(pids, table, accepts, root, sig);
        log := log + sent;
        passes := passes + 1;
        done := !(count > 0 && passes < MaxPasses);
    }
    if sig == SIGKILL && !aborted {
      log := log + [Send(root, SIGKILL, rootOk)];
    }
    PassesSpareRoot(snaps, root, sig, 0);
  }

  // ---------------------------------------------------------------------------
  // Properties of the loop.

  /** Inside the loop every kill carries the requested signal and never targets root. */
  lemma {:induction false} PassesSpareRoot(snaps: seq<Snapshot>, root: int, sig: int, k: nat)
    requires k < MaxPasses <= |snaps|
    ensures forall i :: 0 <= i < |Passes(snaps, root, sig, k).log| ==>
              Passes(snaps, root, sig, k).log[i].pid != root && Passes(snaps, root, sig, k).log[i].sig == sig
    decreases MaxPasses - k
  {
    if snaps[k].Snapshot? {
      var targets := Scan(snaps[k].table, snaps[k].pids, SignalTargetOf(root));
      ScanMembers(snaps[k].table, snaps[k].pids, SignalTargetOf(root));
      forall i | 0 <= i < |targets|
        ensures targets[i] != root
      {
        assert targets[i] in targets;
      }
      if Delivered(PassSends(snaps[k], root, sig)) > 0 && k + 1 < MaxPasses {
        PassesSpareRoot(snaps, root, sig, k + 1);
      }
    }
  }

  /** p is a listed descendant of root, other than root, in pass j's snapshot. */
  predicate TargetAt(snaps: seq<Snapshot>, j: nat, root: int, p: int)
  {
    j < |snaps| && snaps[j].Snapshot? && p in snaps[j].pids && p != root && IsDescendant(snaps[j].table, root, p)
  }

  /** Each send of a pass targets a listed descendant of root other than root. */
  lemma PassSendTarget(snap: Snapshot, root: int, sig: int, i: nat)
    requires snap.Snapshot? && i < |PassSends(snap, root, sig)|
    ensures var p := PassSends(snap, root, sig)[i].pid;
      p in snap.pids && p != root && IsDescendant(snap.table, root, p)
  {
    var targets := Scan(snap.table, snap.pids, SignalTargetOf(root));
    ScanMembers(snap.table, snap.pids, SignalTargetOf(root));
    assert PassSends(snap, root, sig)[i].pid == targets[i];
    assert targets[i] in targets;
  }

  /** Every kill made by the loop targets a listed descendant of root in the snapshot of some pass it made. */
  lemma {:induction false} PassesTargetDescendants(snaps: seq<Snapshot>, root: int, sig: int, k: nat, i: nat)
    returns (j: nat)
    requires k < MaxPasses <= |snaps|
    requires i < |Passes(snaps, root, sig, k).log|
    ensures k <= j < Passes(snaps, root, sig, k).passes
    ensures TargetAt(snaps, j, root, Passes(snaps, root, sig, k).log[i].pid)
    decreases MaxPasses - k
  {
    var o := Passes(snaps, root, sig, k);
    assert snaps[k].Snapshot?;
    var sends := PassSends(snaps[k], root, sig);
    if Delivered(sends) > 0 && k + 1 < MaxPasses {
      var rest := Passes(snaps, root, sig, k + 1);
      assert o == Prepend(sends, rest);
      if i < |sends| {
        assert o.log[i] == sends[i];
        PassSendTarget(snaps[k], root, sig, i);
        j := k;
      } else {
        assert o.log[i] == rest.log[i - |sends|];
        j := PassesTargetDescendants(snaps, root, sig, k + 1, i - |sends|);
      }
    } else {
      assert o.log == sends;
      PassSendTarget(snaps[k], root, sig, i);
      j := k;
    }
  }

  /** Every pass before the last one was readable and had at least one successful kill. */
  lemma {:induction false} PassesContinueOnlyAfterDelivery(snaps: seq<Snapshot>, root: int, sig: int, k: nat, j: nat)
    requires k <= j < MaxPasses <= |snaps|
    requires j < Passes(snaps, root, sig, k).passes - 1
    ensures snaps[j].Snapshot? && Delivered(PassSends(snaps[j], root, sig)) > 0
    decreases MaxPasses - k
  {
    if j > k {
      PassesContinueOnlyAfterDelivery(snaps, root, sig, k + 1, j);
    }
  }

  /**
   How the run ends: it aborted exactly when the last pass's snapshot was unreadable,
   and a run that stopped before MaxPasses without aborting stopped after a pass with
   no successful kill.
   */
  lemma {:induction false} PassesStopRule(snaps: seq<Snapshot>, root: int, sig: int, k: nat)
    requires k < MaxPasses <= |snaps|
    ensures k < Passes(snaps, root, sig, k).passes <= MaxPasses
    ensures Passes(snaps, root, sig, k).aborted <==> snaps[Passes(snaps, root, sig, k).passes - 1].Unreadable?
    ensures !Passes(snaps, root, sig, k).aborted && Passes(snaps, root, sig, k).passes < MaxPasses ==>
              Delivered(PassSends(snaps[Passes(snaps, root, sig, k).passes - 1], root, sig)) == 0
    decreases MaxPasses - k
  {
    if snaps[k].Snapshot? && Delivered(PassSends(snaps[k], root, sig)) > 0 && k + 1 < MaxPasses {
      PassesStopRule(snaps, root, sig, k + 1);
    }
  }

  /**
   The root is signalled once, after every loop send, and only for SIGKILL when
   /proc stayed readable; no other signal reaches it.
   */
  lemma RootSignalledLast(snaps: seq<Snapshot>, root: int, sig: int, rootOk: bool)
    requires MaxPasses <= |snaps|
    ensures var o := SignalRun(snaps, root, sig, rootOk);
      (forall i :: 0 <= i < |o.log| - 1 ==> o.log[i].pid != root) &&
      (ValidSignal(sig) && sig == SIGKILL && !o.aborted <==> |o.log| > 0 && o.log[|o.log| - 1] == Send(root, SIGKILL, rootOk))
  {
    if ValidSignal(sig) {
      PassesSpareRoot(snaps, root, sig, 0);
    }
  }

  // ---------------------------------------------------------------------------
  // The zombie reaper.

  /**
   The log of zombie_par_kill over a listing: for each listed defunct descendant of
   pid, in listing order, one SIGKILL to its recorded parent.
   */
  function ReapLog(t: Table, pids: seq<int>, pid: int, accepts: set<int>): (log: seq<Send>)
    ensures |log| <= |pids|
    decreases |pids|
  {
    if pids == [] then []
    else
      var n := |pids| - 1;
      var c := pids[n];
      ReapLog(t, pids[..n], pid, accepts)
        + (if IsDescendant(t, pid, c) && IsZombie(t, c) then [Send(t[c].ppid, SIGKILL, t[c].ppid in accepts)] else [])
  }

  /**
   The reaper's log has one entry per zombie descendant reported by the zombie
   scan, and entry i is a SIGKILL to the parent of zombie i.
   */
  lemma {:induction false} ReapLogFollowsZombies(t: Table, pids: seq<int>, pid: int, accepts: set<int>)
    ensures var log, zombies := ReapLog(t, pids, pid, accepts), Scan(t, pids, DescendantOf(pid, true));
      |log| == |zombies| &&
      forall i :: 0 <= i < |log| ==>
        IsZombie(t, zombies[i]) && log[i] == Send(t[zombies[i]].ppid, SIGKILL, t[zombies[i]].ppid in accepts)
    decreases |pids|
  {
    if pids != [] {
      var n := |pids| - 1;
      ReapLogFollowsZombies(t, pids[..n], pid, accepts);
      var zombies := Scan(t, pids, DescendantOf(pid, true));
      forall i | 0 <= i < |zombies|
        ensures IsZombie(t, zombies[i])
      {
        ScanAt(t, pids, DescendantOf(pid, true), i);
      }
    }
  }

  /**
   zombie_par_kill: for every listed defunct descendant of pid, in listing order,
   SIGKILL to its parent; a failed kill does not end the scan. found says whether
   any kill succeeded.
   */
  method ZombieParKill(t: Table, pids: seq<int>, pid: int, accepts: set<int>)
    returns (log: seq<Send>, found: bool)
    ensures log == ReapLog(t, pids, pid, accepts)
    ensures var zombies := Scan(t, pids, DescendantOf(pid, true));
      |log| == |zombies| &&
      (forall i :: 0 <= i < |log| ==> IsZombie(t, zombies[i]) && log[i].sig == SIGKILL && log[i].pid == t[zombies[i]].ppid) &&
      (Acyclic(t) ==> forall i :: 0 <= i < |log| ==> log[i].pid != zombies[i])
    ensures found <==> Delivered(log) > 0
  {
    log, found := [], false;
    var i := 0;
    while i < |pids|
      invariant 0 <= i <= |pids|
      invariant log == ReapLog(t, pids[..i], pid, accepts)
      invariant found <==> Delivered(log) > 0
    {
      var child := pids[i];
      assert pids[..i + 1][..i] == pids[..i];
      if IsDescendant(t, pid, child) && IsZombie(t, child) {
        var ppid := t[child].ppid;
        var ok := ppid in accepts;
        DeliveredAppend(log, Send(ppid, SIGKILL, ok));
        log := log + [Send(ppid, SIGKILL, ok)];
        if ok {
          found := true;
        }
      }
      i := i + 1;
    }
    assert pids[..i] == pids;
    ReapLogFollowsZombies(t, pids, pid, accepts);
    ReapSparesZombies(t, pids, pid, accepts);
  }

  /** In a forest a zombie's parent is never the zombie itself, so the reaper never signals the zombie. */
  lemma ReapSparesZombies(t: Table, pids: seq<int>, pid: int, accepts: set<int>)
    ensures var log, zombies := ReapLog(t, pids, pid, accepts), Scan(t, pids, DescendantOf(pid, true));
      Acyclic(t) ==> |log| == |zombies| && forall i :: 0 <= i < |log| ==> log[i].pid != zombies[i]
  {
    ReapLogFollowsZombies(t, pids, pid, accepts);
    var zombies := Scan(t, pids, DescendantOf(pid, true));
    if Acyclic(t) {
      forall i | 0 <= i < |zombies|
        ensures t[zombies[i]].ppid != zombies[i]
      {
        ParentIsHigher(t, zombies[i]);
      }
    }
  }
}

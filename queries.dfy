/**
 The relationship queries. Each one scans the /proc listing (the pids in the order
 the directory enumeration yields them, given as a sequence) and reads the records
 it needs from one table snapshot. A listed pid without a record is skipped.
 */
module Queries {
  import opened ProcTable

  /** The test a scan applies to each listed pid. */
  datatype Filter =
    | ChildOf(parent: int)
    | DescendantOf(root: int, zombieOnly: bool)
    | NonDirectOf(root: int)
    | SiblingOf(self: int, parent: int, zombieOnly: bool)
    | SignalTargetOf(root: int)

  predicate Matches(t: Table, f: Filter, x: int)
  {
    match f
    case ChildOf(parent) => IsImmediateChild(t, parent, x)
    case DescendantOf(root, zombieOnly) => IsDescendant(t, root, x) && (!zombieOnly || IsZombie(t, x))
    case NonDirectOf(root) => IsDescendant(t, root, x) && !IsImmediateChild(t, root, x)
    case SiblingOf(self, parent, zombieOnly) =>
      x != self && x in t && t[x].ppid == parent && (!zombieOnly || IsZombie(t, x))
    case SignalTargetOf(root) => x != root && IsDescendant(t, root, x)
  }

  /** The pids a scan reports, in listing order. */
  function Scan(t: Table, pids: seq<int>, f: Filter): (r: seq<int>)
    ensures |r| <= |pids|
    decreases |pids|
  {
    if pids == [] then []
    else
      var n := |pids| - 1;
      Scan(t, pids[..n], f) + (if Matches(t, f, pids[n]) then [pids[n]] else [])
  }

  /** A listed pid is reported exactly when it passes the test. */
  lemma {:induction false} ScanMembers(t: Table, pids: seq<int>, f: Filter)
    ensures forall x :: x in Scan(t, pids, f) <==> x in pids && Matches(t, f, x)
    decreases |pids|
  {
    if pids != [] {
      var n := |pids| - 1;
      ScanMembers(t, pids[..n], f);
      assert pids == pids[..n] + [pids[n]];
    }
  }

  /** zombie_descendants: the descendants of pid, only the defunct ones when checkDefunct. */
  method ZombieDescendants(t: Table, pids: seq<int>, pid: int, checkDefunct: bool)
    returns (out: seq<int>, found: bool)
    ensures out == Scan(t, pids, DescendantOf(pid, checkDefunct))
    ensures forall x :: x in out <==>
              x in pids && IsDescendant(t, pid, x) && (checkDefunct ==> IsZombie(t, x))
    ensures found <==> out != []
  {
    out, found := [], false;
    var i := 0;
    while i < |pids|
      invariant 0 <= i <= |pids|
      invariant out == Scan(t, pids[..i], DescendantOf(pid, checkDefunct))
      invariant found <==> out != []
    {
      var descendant := pids[i];
      if IsDescendant(t, pid, descendant) && (!checkDefunct || IsZombie(t, descendant)) {
        out := out + [descendant];
        found := true;
      }
      assert pids[..i + 1][..i] == pids[..i];
      i := i + 1;
    }
    assert pids[..i] == pids;
    ScanMembers(t, pids, DescendantOf(pid, checkDefunct));
  }

  /** non_direct_descendants: descendants of pid that are not its immediate children. */
  method NonDirectDescendants(t: Table, pids: seq<int>, pid: int) returns (out: seq<int>, found: bool)
    ensures out == Scan(t, pids, NonDirectOf(pid))
    ensures forall x :: x in out <==>
              x in pids && IsDescendant(t, pid, x) && !IsImmediateChild(t, pid, x)
    ensures found <==> out != []
  {
    out, found := [], false;
    var i := 0;
    while i < |pids|
      invariant 0 <= i <= |pids|
      invariant out == Scan(t, pids[..i], NonDirectOf(pid))
      invariant found <==> out != []
    {
      var descendant := pids[i];
      if IsDescendant(t, pid, descendant) && !IsImmediateChild(t, pid, descendant) {
        out := out + [descendant];
        found := true;
      }
      assert pids[..i + 1][..i] == pids[..i];
      i := i + 1;
    }
    assert pids[..i] == pids;
    ScanMembers(t, pids, NonDirectOf(pid));
  }

  /** immediate_descendants_process: listed pids whose recorded parent is pid. */
  method ImmediateDescendants(t: Table, pids: seq<int>, pid: int) returns (out: seq<int>, found: bool)
    ensures out == Scan(t, pids, ChildOf(pid))
    ensures forall x :: x in out <==> x in pids && x in t && t[x].ppid == pid
    ensures found <==> out != []
  {
    out, found := [], false;
    var i := 0;
    while i < |pids|
      invariant 0 <= i <= |pids|
      invariant out == Scan(t, pids[..i], ChildOf(pid))
      invariant found <==> out != []
    {
      var child := pids[i];
      if child in t {
        var ppid := t[child].ppid;
        if ppid == pid {
          out := out + [child];
          found := true;
        }
      }
      assert pids[..i + 1][..i] == pids[..i];
      i := i + 1;
    }
    assert pids[..i] == pids;
    ScanMembers(t, pids, ChildOf(pid));
  }

  /**
   sibling_process: the other listed pids sharing pid's recorded parent, only the
   defunct ones when defunctOnly. When pid has no record the program stops with a
   failure status (readable is false) before scanning.
   */
  method Siblings(t: Table, pids: seq<int>, pid: int, defunctOnly: bool)
    returns (readable: bool, out: seq<int>, found: bool)
    ensures readable <==> pid in t
    ensures readable ==> out == Scan(t, pids, SiblingOf(pid, t[pid].ppid, defunctOnly))
    ensures readable ==> forall x :: x in out <==>
              x in pids && x != pid && x in t && t[x].ppid == t[pid].ppid && (defunctOnly ==> IsZombie(t, x))
    ensures !readable ==> out == []
    ensures found <==> out != []
  {
    out, found := [], false;
    if pid !in t {
      readable := false;
      return;
    }
    readable := true;
    var ppid := t[pid].ppid;
    var i := 0;
    while i < |pids|
      invariant 0 <= i <= |pids|
      invariant out == Scan(t, pids[..i], SiblingOf(pid, ppid, defunctOnly))
      invariant found <==> out != []
    {
      var sibling := pids[i];
      if sibling != pid && sibling in t {
        var siblingPpid := t[sibling].ppid;
        if siblingPpid == ppid && (!defunctOnly || IsZombie(t, sibling)) {
          out := out + [sibling];
          found := true;
        }
      }
      assert pids[..i + 1][..i] == pids[..i];
      i := i + 1;
    }
    assert pids[..i] == pids;
    ScanMembers(t, pids, SiblingOf(pid, ppid, defunctOnly));
  }

  /**
   What gc_process reports: for each pid c of `outer` (in order) that is an
   immediate child of pid, the listed immediate children of c.
   */
  function GrandchildScan(t: Table, outer: seq<int>, pids: seq<int>, pid: int): (r: seq<int>)
    ensures |r| <= |outer| * |pids|
    decreases |outer|
  {
    if outer == [] then []
    else
      var n := |outer| - 1;
      var c := outer[n];
      assert |outer| * |pids| == n * |pids| + |pids|;
      GrandchildScan(t, outer[..n], pids, pid)
        + (if IsImmediateChild(t, pid, c) then Scan(t, pids, ChildOf(c)) else [])
  }

  /** A pid is reported exactly when it is listed and its parent is an outer pid that is a child of pid. */
  lemma {:induction false} GrandchildMembers(t: Table, outer: seq<int>, pids: seq<int>, pid: int)
    ensures forall g :: g in GrandchildScan(t, outer, pids, pid) <==>
              g in pids && g in t && t[g].ppid in outer && IsImmediateChild(t, pid, t[g].ppid)
    decreases |outer|
  {
    if outer != [] {
      var n := |outer| - 1;
      var c := outer[n];
      GrandchildMembers(t, outer[..n], pids, pid);
      ScanMembers(t, pids, ChildOf(c));
      assert outer == outer[..n] + [c];
    }
  }

  /** Scanning one more outer pid appends its children when it is a child of pid. */
  lemma GrandchildSnoc(t: Table, outer: seq<int>, c: int, pids: seq<int>, pid: int)
    ensures GrandchildScan(t, outer + [c], pids, pid) ==
              GrandchildScan(t, outer, pids, pid) + (if IsImmediateChild(t, pid, c) then Scan(t, pids, ChildOf(c)) else [])
  {
    assert (outer + [c])[..|outer|] == outer;
  }

  /** gc_process: the outer scan finds the children, a nested scan per child finds theirs. */
  method Grandchildren(t: Table, pids: seq<int>, pid: int) returns (out: seq<int>, found: bool)
    ensures out == GrandchildScan(t, pids, pids, pid)
    ensures forall g :: g in out <==>
              g in pids && g in t && t[g].ppid in pids && t[g].ppid in t && t[t[g].ppid].ppid == pid
    ensures found <==> out != []
  {
    out, found := [], false;
    var i := 0;
    while i < |pids|
      invariant 0 <= i <= |pids|
      invariant out == GrandchildScan(t, pids[..i], pids, pid)
      invariant found <==> out != []
    {
      var child := pids[i];
      if child in t {
        var ppid := t[child].ppid;
        if ppid == pid {
          // The nested scan over the whole listing is the immediate-children scan of child.
          var grandchildren, some := ImmediateDescendants(t, pids, child);
          out := out + grandchildren;
          found := found || some;
        }
      }
      assert pids[..i + 1] == pids[..i] + [child];
      GrandchildSnoc(t, pids[..i], child, pids, pid);
      i := i + 1;
    }
    assert pids[..i] == pids;
    GrandchildMembers(t, pids, pids, pid);
  }

  /** What process_status prints about one pid. */
  datatype Status = Unknown | Defunct | NotDefunct

  /**
   process_status reads the state field itself; it agrees with zombie_process, and a
   pid without a record is reported as unknown, never as defunct.
   */
  function ProcessStatus(t: Table, pid: int): (s: Status)
    ensures s == Unknown <==> pid !in t
    ensures s == Defunct <==> IsZombie(t, pid)
  {
    if pid !in t then Unknown
    else if t[pid].state == 'Z' then Defunct
    else NotDefunct
  }

  /** Each reported pid passed the scan's test. */
  lemma ScanAt(t: Table, pids: seq<int>, f: Filter, i: nat)
    requires i < |Scan(t, pids, f)|
    ensures Matches(t, f, Scan(t, pids, f)[i])
  {
    ScanMembers(t, pids, f);
    assert Scan(t, pids, f)[i] in Scan(t, pids, f);
  }

  /** Scanning one more listed pid appends it when it passes the test. */
  lemma ScanSnoc(t: Table, pids: seq<int>, x: int, f: Filter)
    ensures Scan(t, pids + [x], f) == Scan(t, pids, f) + (if Matches(t, f, x) then [x] else [])
  {
    assert (pids + [x])[..|pids|] == pids;
  }

  // ---------------------------------------------------------------------------
  // How the query results relate to each other.

  /** Every immediate child is a descendant. */
  lemma ChildrenAreDescendants(t: Table, pids: seq<int>, pid: int)
    ensures forall x :: x in Scan(t, pids, ChildOf(pid)) ==> x in Scan(t, pids, DescendantOf(pid, false))
  {
    ScanMembers(t, pids, ChildOf(pid));
    ScanMembers(t, pids, DescendantOf(pid, false));
    forall x | x in Scan(t, pids, ChildOf(pid))
      ensures x in Scan(t, pids, DescendantOf(pid, false))
    {
      DescendantCases(t, pid, x);
    }
  }

  /** The non-direct descendants are exactly the descendants minus the immediate children. */
  lemma NonDirectIsDifference(t: Table, pids: seq<int>, pid: int)
    ensures forall x :: x in Scan(t, pids, NonDirectOf(pid)) <==>
              x in Scan(t, pids, DescendantOf(pid, false)) && x !in Scan(t, pids, ChildOf(pid))
  {
    ScanMembers(t, pids, NonDirectOf(pid));
    ScanMembers(t, pids, DescendantOf(pid, false));
    ScanMembers(t, pids, ChildOf(pid));
  }

  /** The zombie-filtered descendant list keeps exactly the defunct descendants. */
  lemma ZombieFilterKeepsDefunct(t: Table, pids: seq<int>, pid: int)
    ensures forall x :: x in Scan(t, pids, DescendantOf(pid, true)) <==>
              x in Scan(t, pids, DescendantOf(pid, false)) && IsZombie(t, x)
  {
    ScanMembers(t, pids, DescendantOf(pid, true));
    ScanMembers(t, pids, DescendantOf(pid, false));
  }

  /** A process is never listed as its own sibling. */
  lemma NotOwnSibling(t: Table, pids: seq<int>, pid: int, defunctOnly: bool)
    requires pid in t
    ensures pid !in Scan(t, pids, SiblingOf(pid, t[pid].ppid, defunctOnly))
  {
    ScanMembers(t, pids, SiblingOf(pid, t[pid].ppid, defunctOnly));
  }

  /** Being siblings is symmetric among listed processes with records. */
  lemma SiblingsSymmetric(t: Table, pids: seq<int>, p: int, s: int)
    requires p in t && s in t && p in pids && s in pids
    ensures s in Scan(t, pids, SiblingOf(p, t[p].ppid, false)) <==>
            p in Scan(t, pids, SiblingOf(s, t[s].ppid, false))
  {
    ScanMembers(t, pids, SiblingOf(p, t[p].ppid, false));
    ScanMembers(t, pids, SiblingOf(s, t[s].ppid, false));
  }

  /** The grandchildren are the children of the listed children. */
  lemma GrandchildrenAreChildrenOfChildren(t: Table, pids: seq<int>, pid: int, g: int)
    ensures g in GrandchildScan(t, pids, pids, pid) <==>
            exists c :: c in Scan(t, pids, ChildOf(pid)) && g in Scan(t, pids, ChildOf(c))
  {
    ScanMembers(t, pids, ChildOf(pid));
    GrandchildMembers(t, pids, pids, pid);
    if g in GrandchildScan(t, pids, pids, pid) {
      var c := t[g].ppid;
      ScanMembers(t, pids, ChildOf(c));
      assert c in Scan(t, pids, ChildOf(pid)) && g in Scan(t, pids, ChildOf(c));
    }
    if exists c :: c in Scan(t, pids, ChildOf(pid)) && g in Scan(t, pids, ChildOf(c)) {
      var c :| c in Scan(t, pids, ChildOf(pid)) && g in Scan(t, pids, ChildOf(c));
      ScanMembers(t, pids, ChildOf(c));
    }
  }

  /** Every grandchild reached through a child other than pid 1 is a non-direct descendant. */
  lemma GrandchildrenAreNonDirect(t: Table, pids: seq<int>, pid: int, g: int)
    requires Acyclic(t)
    requires g in GrandchildScan(t, pids, pids, pid) && g in t && t[g].ppid != 1
    ensures g in Scan(t, pids, NonDirectOf(pid))
  {
    GrandchildMembers(t, pids, pids, pid);
    var c := t[g].ppid;
    ParentIsHigher(t, c);
    assert c != pid;
    DescendantCases(t, pid, c);
    DescendantCases(t, pid, g);
    ScanMembers(t, pids, NonDirectOf(pid));
  }
}

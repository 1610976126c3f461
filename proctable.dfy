/**
 The process table as one snapshot of /proc, and the ancestry walk over it.

 A pid that is a key of the table has a readable /proc/<pid>/stat file giving its
 parent pid and its one-letter run state; a pid that is not a key stands for a
 stat file that could not be opened (the process has exited).
 */
module ProcTable {

  datatype Option<T> = None | Some(value: T)

  /** The two fields of a stat record the program reads. */
  datatype Rec = Rec(ppid: int, state: char)

  type Table = map<int, Rec>

  /** A process whose record is present and whose state is 'Z' (defunct). */
  predicate IsZombie(t: Table, p: int)
  {
    p in t && t[p].state == 'Z'
  }

  /** child's record is present and names parent as its parent. */
  predicate IsImmediateChild(t: Table, parent: int, child: int)
  {
    child in t && t[child].ppid == parent
  }

  /**
   The recursive parent walk asking whether p lies under root, given a budget of
   `fuel` calls. None means the budget ran out before the walk answered.
   */
  function Walk(t: Table, root: int, p: int, fuel: nat): (r: Option<bool>)
    ensures r.Some? ==> fuel > 0
    ensures r == Some(true) ==> p in t
    decreases fuel
  {
    if fuel == 0 then None
    else if p !in t then Some(false)
    else if t[p].ppid == root then Some(true)
    else if t[p].ppid == 1 then Some(false)
    else Walk(t, root, t[p].ppid, fuel - 1)
  }

  /**
   The ancestry test. The walk is cut off after |t| + 1 calls; WalkCapSuffices
   shows that the cut only affects walks that would otherwise never return.
   */
  predicate IsDescendant(t: Table, root: int, p: int)
  {
    Walk(t, root, p, |t| + 1) == Some(true)
  }

  /** The walk goes on from p to p's parent. */
  predicate Climbs(t: Table, root: int, p: int)
  {
    p in t && t[p].ppid != root && t[p].ppid != 1
  }

  /** The pid reached from p after k parent links (it stays put at a missing record). */
  function Up(t: Table, p: int, k: nat): int
    decreases k
  {
    if k == 0 || p !in t then p else Up(t, t[p].ppid, k - 1)
  }

  lemma {:induction false} WalkMonotone(t: Table, root: int, p: int, n: nat, m: nat)
    requires n <= m && Walk(t, root, p, n).Some?
    ensures Walk(t, root, p, m) == Walk(t, root, p, n)
    decreases n
  {
    if Climbs(t, root, p) {
      WalkMonotone(t, root, t[p].ppid, n - 1, m - 1);
    }
  }

  lemma {:induction false} StalledWalkClimbs(t: Table, root: int, p: int, n: nat)
    requires Walk(t, root, p, n) == None
    ensures forall i :: 0 <= i < n ==> Climbs(t, root, Up(t, p, i))
    decreases n
  {
    if n > 0 {
      StalledWalkClimbs(t, root, t[p].ppid, n - 1);
      forall i | 0 <= i < n
        ensures Climbs(t, root, Up(t, p, i))
      {
        if i > 0 {
          assert Up(t, p, i) == Up(t, t[p].ppid, i - 1);
        }
      }
    }
  }

  lemma {:induction false} ClimbingWalkStalls(t: Table, root: int, p: int, n: nat)
    requires forall i :: 0 <= i < n ==> Climbs(t, root, Up(t, p, i))
    ensures Walk(t, root, p, n) == None
    decreases n
  {
    if n > 0 {
      assert Climbs(t, root, Up(t, p, 0));
      forall i | 0 <= i < n - 1
        ensures Climbs(t, root, Up(t, t[p].ppid, i))
      {
        assert Up(t, p, i + 1) == Up(t, t[p].ppid, i);
      }
      ClimbingWalkStalls(t, root, t[p].ppid, n - 1);
    }
  }

  lemma {:induction false} UpAdd(t: Table, p: int, a: nat, b: nat)
    ensures Up(t, p, a + b) == Up(t, Up(t, p, a), b)
    decreases a
  {
    if a > 0 && p in t {
      UpAdd(t, t[p].ppid, a - 1, b);
    }
  }

  /** The pids met in the first n steps of the chain from p. */
  function Visited(t: Table, p: int, n: nat): set<int>
    decreases n
  {
    if n == 0 then {} else Visited(t, p, n - 1) + {Up(t, p, n - 1)}
  }

  lemma {:induction false} NotVisited(t: Table, p: int, n: nat, x: int)
    requires forall k :: 0 <= k < n ==> Up(t, p, k) != x
    ensures x !in Visited(t, p, n)
    decreases n
  {
    if n > 0 {
      NotVisited(t, p, n - 1, x);
    }
  }

  lemma {:induction false} DistinctVisitedCount(t: Table, p: int, n: nat)
    requires forall k :: 0 <= k < n ==> Up(t, p, k) in t
    requires forall a, b :: 0 <= a < b < n ==> Up(t, p, a) != Up(t, p, b)
    ensures |Visited(t, p, n)| == n && Visited(t, p, n) <= t.Keys
    decreases n
  {
    if n > 0 {
      DistinctVisitedCount(t, p, n - 1);
      NotVisited(t, p, n - 1, Up(t, p, n - 1));
    }
  }

  /** Pigeonhole: a chain of n distinct pids that all have records fits in the table. */
  lemma DistinctChainFits(t: Table, p: int, n: nat)
    requires forall k :: 0 <= k < n ==> Up(t, p, k) in t
    requires forall a, b :: 0 <= a < b < n ==> Up(t, p, a) != Up(t, p, b)
    ensures n <= |t|
  {
    DistinctVisitedCount(t, p, n);
    var s := Visited(t, p, n);
    assert t.Keys == s + (t.Keys - s);
    assert |t.Keys| == |s| + |t.Keys - s|;
  }

  lemma RepeatedAncestor(t: Table, p: int, n: nat) returns (i: nat, j: nat)
    requires forall k :: 0 <= k < n ==> Up(t, p, k) in t
    requires |t| < n
    ensures i < j < n && Up(t, p, i) == Up(t, p, j)
  {
    if forall a, b :: 0 <= a < b < n ==> Up(t, p, a) != Up(t, p, b) {
      DistinctChainFits(t, p, n);
    }
    i, j :| 0 <= i < j < n && Up(t, p, i) == Up(t, p, j);
  }

  /** Once the chain repeats a pid while climbing, it climbs forever. */
  lemma {:induction false} CycleClimbsForever(t: Table, root: int, p: int, i: nat, j: nat, m: nat)
    requires i < j && Up(t, p, i) == Up(t, p, j)
    requires forall k :: 0 <= k < j ==> Climbs(t, root, Up(t, p, k))
    ensures Climbs(t, root, Up(t, p, m))
    decreases m
  {
    if m >= j {
      UpAdd(t, p, j, m - j);
      UpAdd(t, p, i, m - j);
      CycleClimbsForever(t, root, p, i, j, i + (m - j));
    }
  }

  /** A walk that has not answered after |t| + 1 calls never answers. */
  lemma StalledAtCapStallsForever(t: Table, root: int, p: int, n: nat)
    ensures Walk(t, root, p, |t| + 1) == None ==> Walk(t, root, p, n) == None
  {
    var cap := |t| + 1;
    if Walk(t, root, p, cap) == None {
      StalledWalkClimbs(t, root, p, cap);
      var i, j := RepeatedAncestor(t, p, cap);
      forall m | 0 <= m < n
        ensures Climbs(t, root, Up(t, p, m))
      {
        CycleClimbsForever(t, root, p, i, j, m);
      }
      ClimbingWalkStalls(t, root, p, n);
    }
  }

  /**
   Whenever the unbounded C recursion returns (the walk answers for some budget),
   the capped walk gives the same answer.
   */
  lemma WalkCapSuffices(t: Table, root: int, p: int, n: nat)
    requires Walk(t, root, p, n).Some?
    ensures Walk(t, root, p, |t| + 1) == Walk(t, root, p, n)
  {
    if n <= |t| + 1 {
      WalkMonotone(t, root, p, n, |t| + 1);
    } else {
      StalledAtCapStallsForever(t, root, p, n);
      WalkMonotone(t, root, p, |t| + 1, n);
    }
  }

  /**
   The four cases of the walk: a missing record is not a descendant; a parent equal
   to root is (tested first, so also when root is 1); a parent equal to 1 ends the
   walk negatively; otherwise the answer is that of the parent.
   */
  lemma DescendantCases(t: Table, root: int, p: int)
    ensures p !in t ==> !IsDescendant(t, root, p)
    ensures p in t && t[p].ppid == root ==> IsDescendant(t, root, p)
    ensures p in t && t[p].ppid != root && t[p].ppid == 1 ==> !IsDescendant(t, root, p)
    ensures Climbs(t, root, p) ==>
              (IsDescendant(t, root, p) <==> IsDescendant(t, root, t[p].ppid))
  {
    if Climbs(t, root, p) {
      var q := t[p].ppid;
      if Walk(t, root, q, |t|).Some? {
        WalkMonotone(t, root, q, |t|, |t| + 1);
      } else {
        StalledAtCapStallsForever(t, root, p, |t| + 2);
      }
    }
  }

  /** Every descendant has a record of its own. */
  lemma DescendantHasRecord(t: Table, root: int, p: int)
    ensures IsDescendant(t, root, p) ==> p in t
  {
    DescendantCases(t, root, p);
  }

  /**
   A parent chain c[0] -> c[1] -> ... ending at root: each c[i + 1] is the recorded
   parent of c[i], and no pid strictly inside the chain is root or pid 1.
   */
  predicate ChainTo(t: Table, c: seq<int>, root: int)
    decreases |c|
  {
    |c| >= 2 && c[0] in t && t[c[0]].ppid == c[1] &&
    if |c| == 2 then c[1] == root
    else c[1] != root && c[1] != 1 && ChainTo(t, c[1..], root)
  }

  lemma {:induction false} ChainWalk(t: Table, c: seq<int>, root: int)
    requires ChainTo(t, c, root)
    ensures Walk(t, root, c[0], |c| - 1) == Some(true)
    decreases |c|
  {
    if |c| > 2 {
      ChainWalk(t, c[1..], root);
    }
  }

  /** A chain of parent links from p that reaches root before pid 1 makes p a descendant. */
  lemma ChainIsDescendant(t: Table, c: seq<int>, root: int)
    requires ChainTo(t, c, root)
    ensures IsDescendant(t, root, c[0])
  {
    ChainWalk(t, c, root);
    WalkCapSuffices(t, root, c[0], |c| - 1);
  }

  lemma {:induction false} WalkThrough(t: Table, r: int, m: int, x: int, a: nat, b: nat)
    requires m != 1
    requires Walk(t, m, x, a) == Some(true) && Walk(t, r, m, b) == Some(true)
    ensures Walk(t, r, x, a + b) == Some(true)
    decreases a
  {
    var q := t[x].ppid;
    if q == r {
    } else if q == m {
      WalkMonotone(t, r, m, b, a + b - 1);
    } else {
      WalkThrough(t, r, m, q, a - 1, b);
    }
  }

  /**
   Descent is transitive through any middle pid other than 1: a walk from x that
   reaches m continues from m to root. (Through pid 1 it is not: the walk from a
   child of 1 toward another root stops at 1.)
   */
  lemma DescendantTransitive(t: Table, root: int, m: int, x: int)
    requires m != 1
    ensures IsDescendant(t, root, m) && IsDescendant(t, m, x) ==> IsDescendant(t, root, x)
  {
    if IsDescendant(t, root, m) && IsDescendant(t, m, x) {
      WalkThrough(t, root, m, x, |t| + 1, |t| + 1);
      WalkCapSuffices(t, root, x, 2 * |t| + 2);
    }
  }

  // ---------------------------------------------------------------------------
  // Acyclic tables: every parent chain leaves the table.

  /** Following parent links from p leaves the table after at most n links. */
  predicate LeavesWithin(t: Table, p: int, n: nat)
    decreases n
  {
    p !in t || (n > 0 && LeavesWithin(t, t[p].ppid, n - 1))
  }

  /** The parent links form a forest: no chain of links returns to a pid it has visited. */
  ghost predicate Acyclic(t: Table)
  {
    forall p :: p in t ==> LeavesWithin(t, p, |t|)
  }

  /** The number of links from p until the chain leaves the table. */
  function Depth(t: Table, p: int, n: nat): nat
    requires LeavesWithin(t, p, n)
    decreases n
  {
    if p !in t then 0 else 1 + Depth(t, t[p].ppid, n - 1)
  }

  ghost function Height(t: Table, p: int): nat
    requires Acyclic(t)
  {
    Depth(t, p, |t|)
  }

  lemma {:induction false} LeavesMonotone(t: Table, p: int, n: nat, m: nat)
    requires LeavesWithin(t, p, n) && n <= m
    ensures LeavesWithin(t, p, m) && Depth(t, p, m) == Depth(t, p, n)
    decreases n
  {
    if p in t {
      LeavesMonotone(t, t[p].ppid, n - 1, m - 1);
    }
  }

  lemma {:induction false} AncestorIsShallower(t: Table, r: int, q: int, fuel: nat, n: nat)
    requires LeavesWithin(t, q, n) && Walk(t, r, q, fuel) == Some(true)
    ensures n > 0 && LeavesWithin(t, r, n - 1) && Depth(t, r, n - 1) < Depth(t, q, n)
    decreases fuel
  {
    var pp := t[q].ppid;
    if pp != r {
      AncestorIsShallower(t, r, pp, fuel - 1, n - 1);
      LeavesMonotone(t, r, n - 2, n - 1);
    }
  }

  /** In a forest, a descendant lies strictly deeper than the root it descends from. */
  lemma DescendantIsDeeper(t: Table, root: int, p: int)
    requires Acyclic(t)
    ensures IsDescendant(t, root, p) ==> Height(t, root) < Height(t, p)
  {
    if IsDescendant(t, root, p) {
      AncestorIsShallower(t, root, p, |t| + 1, |t|);
      LeavesMonotone(t, root, |t| - 1, |t|);
    }
  }

  /** In a forest the descendant relation is asymmetric. */
  lemma DescendantAsymmetric(t: Table, a: int, b: int)
    requires Acyclic(t)
    ensures IsDescendant(t, a, b) ==> !IsDescendant(t, b, a)
  {
    DescendantIsDeeper(t, a, b);
    DescendantIsDeeper(t, b, a);
  }

  /** In a forest no process is its own descendant. */
  lemma NotOwnDescendant(t: Table, p: int)
    requires Acyclic(t)
    ensures !IsDescendant(t, p, p)
  {
    DescendantIsDeeper(t, p, p);
  }

  /** In a forest a recorded parent lies strictly higher, so it is never the process itself. */
  lemma ParentIsHigher(t: Table, p: int)
    requires Acyclic(t) && p in t
    ensures Height(t, t[p].ppid) < Height(t, p) && t[p].ppid != p
  {
    LeavesMonotone(t, t[p].ppid, |t| - 1, |t|);
  }

  lemma {:induction false} WalkAnswersWithinDepth(t: Table, root: int, p: int, n: nat)
    requires LeavesWithin(t, p, n)
    ensures Walk(t, root, p, n + 1).Some?
    decreases n
  {
    if Climbs(t, root, p) {
      WalkAnswersWithinDepth(t, root, t[p].ppid, n - 1);
    }
  }

  /** In a forest the C recursion always returns, so the cap never matters. */
  lemma AcyclicWalkAnswers(t: Table, root: int, p: int)
    requires Acyclic(t)
    ensures Walk(t, root, p, |t| + 1).Some?
  {
    WalkAnswersWithinDepth(t, root, p, |t|);
  }
}

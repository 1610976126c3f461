# prc24 process-tree control, modelled in Dafny

`prc24 [option] root_process process_id` inspects and signals a process tree on
Linux. It reads every process's parent pid and run state from `/proc/<pid>/stat`
and scans the `/proc` directory for the pids that exist. Before doing anything it
asks whether `process_id` descends from `root_process`. Then, depending on the
option, it does one of these:

- lists the non-direct descendants, immediate children, siblings, defunct
  siblings, defunct descendants or grandchildren of `process_id`;
- reports whether `process_id` is defunct;
- kills the parents of the defunct descendants of `process_id`;
- repeatedly sends SIGKILL, SIGSTOP or SIGCONT to the whole subtree of
  `root_process`.

The model has five modules:

- `ProcTable` (proctable.dfy): one `/proc` snapshot as a map from pid to its record
  (parent pid and state letter). A pid that is not in the map stands for a stat file
  that cannot be opened.
  - `descendant_pro` is the recursive walk `Walk`, given a budget of calls, and
    `IsDescendant` caps that budget at `|t| + 1`. A pigeonhole argument
    (`WalkCapSuffices`) shows the cap only cuts walks that never return in C.
  - Under the assumption that the parent links form a forest (`Acyclic`), the
    module proves the usual order properties of descent.
- `Queries` (queries.dfy): the relationship queries as loops over the listing, the
  `/proc` directory's pids in enumeration order. Each single loop is proved equal to
  `Scan`, a listing filter whose membership is characterised exactly. The nested
  grandchild loop is proved equal to `GrandchildScan`, one `Scan` per child.
- `Signals` (signals.dfy): the signalling loop and the zombie reaper.
  - Each `kill` call is recorded as a `Send`, together with whether it succeeded.
    The environment decides success through a set of pids that accept the signal.
  - Each pass of the loop reads its own snapshot, which may be `Unreadable`.
- `Command` (command.dfy): the option table and the dispatch of `main`.
- `Scenario` (scenario.dfy): a five-process tree with its query, reaper and
  kill-the-tree results worked out.

## Model

| member | source | states |
|---|---|---|
| ProcTable.IsZombie | prc24.c:602-617 | zombie_process: the stat file is readable and its state letter is 'Z'; an unreadable stat file is not a zombie |
| ProcTable.IsImmediateChild | prc24.c:323-338 | immediate_descendant: the child's stat file is readable and its parent pid equals the given parent; an unreadable stat file is never a child |
| ProcTable.Walk | prc24.c:115-146 | descendant_pro with a budget of calls: an answer needs at least one call, and a true answer needs p's stat file to be readable |
| ProcTable.IsDescendant | prc24.c:115-146 | descendant_pro as called by the program: the walk with a budget of \|t\|+1 calls answers true (DescendantCases gives its four branches, WalkCapSuffices shows the budget agrees with the C recursion whenever it returns) |
| ProcTable.WalkMonotone | prc24.c:115-146 | once the recursive parent walk answers, a larger call budget gives the same answer |
| ProcTable.StalledAtCapStallsForever | prc24.c:115-146 | a walk that has not answered after \|t\|+1 calls never answers (the chain has revisited a pid while climbing) |
| ProcTable.DistinctChainFits | prc24.c:115-146 | pigeonhole: a chain of distinct pids that all have readable records is no longer than the table |
| ProcTable.RepeatedAncestor | prc24.c:115-146 | a chain of readable records longer than the table repeats a pid |
| ProcTable.CycleClimbsForever | prc24.c:139-145 | once a climbing chain repeats a pid, the recursion climbs forever |
| ProcTable.WalkCapSuffices | prc24.c:115-146 | whenever the C recursion returns within some number of calls, the capped walk gives the same answer |
| ProcTable.DescendantCases | prc24.c:120-145 | an unreadable stat gives false; a parent equal to root gives true, tested before the parent-is-1 stop that gives false; otherwise the answer is the parent's |
| ProcTable.DescendantHasRecord | prc24.c:120-124 | a descendant always has a readable record |
| ProcTable.ChainIsDescendant | prc24.c:115-146 | a parent chain that reaches root without passing root or pid 1 on the way makes its start a descendant |
| ProcTable.DescendantTransitive | prc24.c:115-146 | descent composes through any middle process other than pid 1 |
| ProcTable.DescendantIsDeeper | prc24.c:115-146 | in a forest, a descendant lies strictly deeper than its root |
| ProcTable.DescendantAsymmetric | prc24.c:115-146 | in a forest, a and b are never descendants of each other |
| ProcTable.NotOwnDescendant | prc24.c:115-146 | in a forest, no process descends from itself |
| ProcTable.ParentIsHigher | prc24.c:128-129 | in a forest, the recorded parent is strictly higher than the process, so never the process itself |
| ProcTable.AcyclicWalkAnswers | prc24.c:115-146 | in a forest the recursion always returns within the cap |
| Queries.Scan | prc24.c:260-273 | a scan never reports more pids than were listed |
| Queries.ScanMembers | prc24.c:260-273 | a listed pid is reported exactly when it passes the query's test |
| Queries.ZombieDescendants | prc24.c:247-284 | reports, in listing order, exactly the listed descendants of pid (only the defunct ones when check_defunct); found says whether any were reported |
| Queries.NonDirectDescendants | prc24.c:287-320 | reports exactly the listed descendants of pid that are not immediate children of pid; found says whether any were reported |
| Queries.ImmediateDescendants | prc24.c:341-382 | reports exactly the listed pids whose readable record names pid as parent, in the same way as immediate_descendant (prc24.c:323-338) |
| Queries.Siblings | prc24.c:385-449 | fails exactly when pid's own record is unreadable; otherwise reports every other listed pid with the same parent (only the defunct ones for -bz) |
| Queries.GrandchildScan | prc24.c:452-521 | the nested scan reports at most one entry per pair of an outer pid and a listed pid |
| Queries.GrandchildMembers | prc24.c:452-521 | a pid is reported exactly when it is listed and its parent is a pid scanned by the outer loop that is a child of pid |
| Queries.GrandchildSnoc | prc24.c:466-515 | one more pid in the outer scan adds that pid's children exactly when it is a child of pid |
| Queries.Grandchildren | prc24.c:452-521 | the outer scan and the nested scan report exactly the listed pids whose listed parent has pid as its parent; found says whether any were reported |
| Queries.ProcessStatus | prc24.c:524-548 | unknown exactly when the stat file is unreadable, otherwise defunct exactly when zombie_process (prc24.c:602-617) says so |
| Queries.ScanSnoc | prc24.c:260-273 | scanning one more listed pid appends it exactly when it passes the test |
| Queries.ScanAt | prc24.c:260-273 | every reported pid passed the test |
| Queries.ChildrenAreDescendants | prc24.c:323-338 | every immediate child is reported as a descendant |
| Queries.NonDirectIsDifference | prc24.c:302-308 | the non-direct descendants are exactly the descendants minus the immediate children |
| Queries.ZombieFilterKeepsDefunct | prc24.c:262-268 | the -zd list is exactly the descendant list restricted to defunct processes |
| Queries.NotOwnSibling | prc24.c:418-420 | pid is never reported as its own sibling |
| Queries.SiblingsSymmetric | prc24.c:385-449 | for two listed processes with records, s is a sibling of p exactly when p is a sibling of s |
| Queries.GrandchildrenAreChildrenOfChildren | prc24.c:452-521 | g is a grandchild exactly when it is a listed child of some listed child |
| Queries.GrandchildrenAreNonDirect | prc24.c:452-521 | in a forest, a grandchild reached through a child other than pid 1 is also a non-direct descendant |
| Signals.Delivered | prc24.c:209-212 | the count of successful kills is at most the number of calls |
| Signals.NoneDelivered | prc24.c:209-222 | the count is zero, which ends the loop, exactly when no call succeeded |
| Signals.NotifyAppend | prc24.c:207-213 | signalling one more target appends exactly one send, to that target |
| Signals.PassSendTarget | prc24.c:203-215 | each send of a pass goes to a listed descendant of root other than root |
| Signals.SignalPass | prc24.c:194-218 | one pass signals every listed descendant of root other than root, in listing order, and counts the kills that succeeded |
| Signals.SignalDescendants | prc24.c:167-231 | the run is SignalRun: nothing for an invalid signal; otherwise between 1 and 10 passes, and a send to root only as the final send, for SIGKILL |
| Signals.Passes | prc24.c:192-222 | the do-while loop from pass k on makes at least one more pass, and at most 10 passes in all |
| Signals.SignalRun | prc24.c:167-231 | no pass exactly for a signal other than KILL, STOP and CONT, and then no kill and no abort; otherwise between 1 and 10 passes |
| Signals.PassesSpareRoot | prc24.c:207-210 | no kill made inside the loop targets root, and each one carries the requested signal |
| Signals.PassesTargetDescendants | prc24.c:203-215 | every kill made inside the loop targets a listed descendant of root, other than root, in the snapshot of a pass that was made |
| Signals.PassesContinueOnlyAfterDelivery | prc24.c:222 | every pass before the last one was readable and had a successful kill |
| Signals.PassesStopRule | prc24.c:196-222 | the run aborts exactly when the last pass could not open /proc; a run that stops early without aborting stopped after a pass with no successful kill |
| Signals.RootSignalledLast | prc24.c:224-230 | root is never signalled inside the loop; the final send is a SIGKILL to root exactly when the signal is SIGKILL and /proc stayed readable |
| Signals.ReapLog | prc24.c:559-592 | the reaper makes at most one kill call per listed pid |
| Signals.ReapLogFollowsZombies | prc24.c:559-592 | the reaper makes one call per defunct descendant reported by the -zd scan, in the same order, entry i being a SIGKILL to the parent of zombie i |
| Signals.ZombieParKill | prc24.c:550-599 | the log is ReapLog; one SIGKILL per defunct descendant goes to its parent and, in a forest, never to the zombie itself; a failed kill does not stop the scan; found says whether any kill succeeded |
| Signals.ReapSparesZombies | prc24.c:576-581 | in a forest, the reaper never signals a zombie itself |
| Command.Decide | prc24.c:45-109 | not-in-tree exactly when process_id is not a descendant, whatever the option; an invalid option only for a process_id in the tree; otherwise the operation named by the option (the PID/PPID line when there is none) |
| Command.Run | prc24.c:26-112 | exits with failure exactly for an invalid option; signals only for -dx/-dt/-dc (SignalRun on root_process), -rp (one SIGKILL to process_id) and -kz (ReapLog); every listing option reports the corresponding scan of process_id |
| Command.SelfIsOutsideOwnTree | prc24.c:46-50 | in a forest, naming the same pid as root and process_id always ends at the tree test |
| Command.MissingIsOutsideTree | prc24.c:46-50 | a process_id without a readable record is refused whatever the option |
| Command.ListingsStayInTree | prc24.c:73-92 | for a process_id other than 1 inside root's tree, everything -dd, -nd and -zd list is inside root's tree too |
| Scenario.ScenarioAncestry | prc24.c:115-146 | on the example tree 101, 102 and 103 descend from 100, while neither 100 nor 1 does, and 103 descends from 101 but 102 does not |
| Scenario.ScenarioDescendants | prc24.c:247-284 | on the example tree the descendants of 100 are [101, 102, 103] |
| Scenario.ScenarioTargets | prc24.c:203-215 | on the example tree a signalling pass from 100 targets [101, 102, 103] |
| Scenario.ScenarioZombies | prc24.c:247-284 | on the example tree the only defunct descendant of 100 is 102 |
| Scenario.ScenarioChildren | prc24.c:341-382 | on the example tree the children of 100 are [101, 102] |
| Scenario.ScenarioChildrenOfChildren | prc24.c:341-382 | on the example tree 101's only child is 103, and 102 has none |
| Scenario.ScenarioNonDirect | prc24.c:287-320 | on the example tree the only non-direct descendant of 100 is 103 |
| Scenario.ScenarioSiblings | prc24.c:385-449 | on the example tree 101's only sibling is 102, which is also its only defunct sibling |
| Scenario.FirstPass | prc24.c:203-215 | the first pass of killing the example tree signals 101, 102 and 103 successfully |
| Scenario.SecondPass | prc24.c:203-215 | the second pass, after those processes have gone, signals nobody |
| Scenario.GrandchildPrefix | prc24.c:466-515 | on the example tree, the outer scan up to 101 has found only 103 |
| Scenario.ScenarioGrandchildren | prc24.c:452-521 | on the example tree the only grandchild of 100 is 103 |
| Scenario.ScenarioReap | prc24.c:550-599 | on the example tree exactly one SIGKILL goes out, to 100, the parent of the zombie 102 |
| Scenario.ScenarioKillTree | prc24.c:167-231 | killing the example tree signals 101, 102 and 103 in the first pass, finds nothing in the second, stops after two passes and then kills 100, whatever the unread later snapshots are |
| Scenario.ScenarioDispatch | prc24.c:46-109 | the tree test refuses a process_id outside the tree even with an invalid option |

## Left out

- Reading `/proc`: opening the directory, the `DT_DIR`/digit filter on names, `atoi` of the names, and the `fscanf` parse of the stat line are not modelled. The model takes the listing as a sequence of pids and the parsed records as a map.
- An unopenable `/proc` directory in the queries and in zombie_par_kill: these paths print an error and exit with failure. The model assumes the directory opens. Only the signalling loop models an unreadable directory, per pass.
- Races with processes that start and exit: the C code re-reads a stat file at every step. The model reads one snapshot per query, and one per pass of the signalling loop. gc_process's nested directory scans and zombie_par_kill's second read of the zombie's stat file use the same snapshot. With one snapshot, zombie_par_kill's `continue` on a failed re-read cannot arise.
- `Command.Run`: the sibling query's failure exit and all_ids's missing-record branch cannot arise inside `Run`. The tree test has already read the same record from the same snapshot. `Queries.Siblings` models the failure path on its own.
- `ProcTable.IsDescendant`: on a table whose parent links form a cycle below root, the C recursion never returns. The model answers false there. `ProcTable.WalkCapSuffices` proves that this is the only case where the cap changes an answer.
- `kill`'s addressing of process groups: a pid of 0 or below signals a group or every process, not one process. The model logs every kill as one send to the pid it names. For example, `prc24 -dx 0 1` passes the tree test because init's parent pid is 0, and then ends with `kill(0, SIGKILL)`.
- `kill`, `usleep` and their effects. A kill's success comes from the `accepts` set of the environment, and the effect of a signal shows only through the next snapshot. The 10 ms sleep between passes has no counterpart.
- The argument-count check and `atoi` of the two pids. `Run` takes the two pids and the optional option string already parsed.
- Message text and output streams. Messages become a `Report` value and a log of sends. Per-entry messages ("Killing the parents …" for each success) are represented by the `found` flag and the send log.
- The width of `pid_t`: pids are unbounded integers.

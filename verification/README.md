# Verified models of the test-bench algorithms and the OpenCL C++ binding

This Dafny project models the parts of the simulator's repository whose
correctness does not show in any one branch, and proves what they are for:

- **Command lines** (`cl_testbench/kmeans/getopt.c`). `CommandLine.dfy` says what a
  command line means: a left-to-right reading with no permuting and no resuming.
  `Getopt.dfy` is the scanner itself, an object whose fields are the C globals and
  which rearranges `argv` in place (`ArgvBlocks.dfy`) while it reads; each call is
  proved to deliver the next event of that reading and to keep the outcome of the
  whole scan unchanged, in all three orderings, with short and long options.
  `CommandLineLaws.dfy` proves what the reading guarantees (stable partition, second
  scans), `ModePrefix.dfy` what leaving the mode prefix in the option string changes, and `CommandLineRendering.dfy` is an independent
  definition -- how a user spells what they mean (IEEE Std 1003.1, Base Definitions,
  section 12.2) -- that the reading is proved to invert.
- **Breadth-first search** (`cl_testbench/bfs/bfs.cpp`). `Graph.dfy` defines walks and
  distances, `BfsPhase.dfy` the first phase of a round as a function of the order in
  which nodes are taken, `Bfs.dfy` the program over its four arrays.
- **Default objects and handles** (`CL/cl.hpp`). `LazyDefault.dfy` is the
  compare-and-swap protocol of `getDefault`, nested as in the source, as interleaved
  steps of any number of threads. `HandleCounts.dfy` is reference counting over every
  sequence of wrapper operations, `Wrapper.dfy` the wrappers as objects that carry
  the operations out, `Version.dfy` the version text that decides whether devices
  are counted.
- **k-means** (`cl_testbench/kmeans/kmeans_clustering.c`, `kmeans.cpp`, `rmse.c`).
  `Clusters.dfy` is the mathematics over the reals, `Kmeans.dfy` the program,
  `Rmse.dfy` the error measure.
- **Partial selection** (`cl_testbench/nn/nearestNeighbor.cpp`): `Selection.dfy`.

`dafny verify dfyconfig.toml` checks everything.

## How to read the contracts

A mutating method is specified by a pure function or predicate on the old and new
contents, and the promises are lemmas about that function. Four properties that the
source or its comments intend turn out to fail, and each has its exact condition:

- A program that scans the permuted `argv` again gets the same result, except when
  the last option lacks its argument and there are operands, one of which is then
  taken for it (`PermutedServesEveryScan`, witness `PermutedStarves`).
- The mode prefix of the option string is stripped in the first call only. A whole
  scan whose later calls keep it delivers the same events exactly if every option after
  the first is read alike (`ActualScan`): a letter other than the prefix, or a long
  option, unless it is starved and a `:` behind the prefix was to report that
  (`OtherLetter`, `OtherOption`); the prefix letter itself only if what follows it at
  the start of the list gives it an arity that acts like its own (`PrefixLetter`). On
  command lines that do not use the prefix letter only the answer to a final starved
  option can differ (`FreeScan`, also under long_only). The witness is `PrefixLeaks`.
- The seed picker selects a point twice exactly when more than half of the points
  (rounded up) are asked for (`SeedsDistinct`, witness `SeedTwice`).
- `findLowest` lists every rank under its own record exactly when no distance among the
  topN nearest stands before the number of distances smaller than it
  (`GenuineExactly`, for lists that do not end between equal distances; the condition
  suffices for all lists; witness `ListedTwice`).

Two more contracts are equivalences about use: `getInfoHelper` keeps the counts
balanced exactly when the handle outlives the wrapper's old object (`ApplyBalanced`),
and assignment without the guard of the derived classes fails exactly on the only
reference (`UnguardedSelfAssignment`).

## Model

| member | source | states |
|---|---|---|
| ArgvBlocks.Exchange | cl_testbench/kmeans/getopt.c:301-379 | swapping the shorter block into place until nothing is left makes the two adjacent blocks trade places, each in its own order, with everything else untouched; terminates because top - bottom shrinks |
| ArgvBlocks.SwapLow | cl_testbench/kmeans/getopt.c:339-355 | when the bottom block is the shorter, swapping it with the end of the top block leaves a smaller rotation with the same result |
| ArgvBlocks.SwapHigh | cl_testbench/kmeans/getopt.c:356-372 | the same when the top block is not the longer |
| OptionTables.MyIndex | cl_testbench/kmeans/getopt.c:218-230 | the first position of a character, or none |
| OptionTables.NameEnd | cl_testbench/kmeans/getopt.c:650-651 | the end of the option name: the first equals sign or the end of the text |
| OptionTables.SearchLong | cl_testbench/kmeans/getopt.c:655-679 | the one-pass search with early exit, first candidate and ambiguity flag computes the declarative lookup |
| CommandLine.LookupLongMeaning | cl_testbench/kmeans/getopt.c:485-490 | the first exact match wins; otherwise ambiguous exactly if two abbreviated matches differ in argument, flag or value (or are two at all under long_only), otherwise the first one; not found exactly if nothing matches |
| CommandLineLaws.ShortOutcome | cl_testbench/kmeans/getopt.c:865-1164 | complaint exactly for letters not listed and missing arguments, what optopt and the return value then are, and that every character of the element is accounted for |
| CommandLineLaws.ArityMeaning | cl_testbench/kmeans/getopt.c:475-479 | the first entry of a letter in the option string counts: no colon after it means no argument, one an argument, two an optional one; a colon is never a letter |
| CommandLineLaws.LongOutcome | cl_testbench/kmeans/getopt.c:638-846 | when an element is tried as a long option at all; a found one returns its value, or 0 with the value stored through its flag, with its index and argument; which complaint is made of an argument that is missing or not allowed, and what optopt then is; ambiguous and unknown names leave optopt 0, unless an unknown one falls back to letters |
| CommandLineLaws.StablePartition | cl_testbench/kmeans/getopt.c:465-468 | for every argv and ordering, options with their arguments and operands partition the elements and each keeps its order |
| CommandLineLaws.OperandsInert | cl_testbench/kmeans/getopt.c:567-572 | operands found before a double dash are empty, "-", or do not begin with "-" |
| CommandLineLaws.Rescan | cl_testbench/kmeans/getopt.c:94-106 | the option matter of a permuting scan followed by other operands reads as the same options, unless an option was starved of its argument |
| CommandLineLaws.PermutedServesEveryScan | cl_testbench/kmeans/getopt.c:94-106 | the permuted argv gives a standard (non-permuting) scan and a second permuting scan the same events, options and operands, if and only if not both the last option is starved and there are operands |
| CommandLineLaws.PermutedStarves | cl_testbench/kmeans/getopt.c:1127-1160 | a command line for which the second scan differs |
| CommandLineLaws.InOrderHandsOutAll | cl_testbench/kmeans/getopt.c:177-186 | in RETURN_IN_ORDER only a double dash leaves anything behind: without one the scan hands out every element |
| ModePrefix.OtherLetter | cl_testbench/kmeans/getopt.c:1152-1155 | with the prefix left in place, another letter is read differently exactly if it is starved and a colon behind the prefix was to say so, and then only the return value differs |
| ModePrefix.PrefixLetter | cl_testbench/kmeans/getopt.c:404-413 | the prefix letter is read alike exactly if the arity that the rest of the list gives it by standing first acts, on this text and tail, like the one it has in the stripped list |
| ModePrefix.OtherOption | cl_testbench/kmeans/getopt.c:790-799 | any option, long or short, that does not begin with the prefix letter differs exactly if it is starved and the colon is hidden |
| ModePrefix.ActualScan | cl_testbench/kmeans/getopt.c:404-413 | for every command line of getopt and getopt_long, in every ordering and with the first call stripped, a scan with the prefix in place has the events of the stripped one if and only if each option read after the first call is alike; then options and operands agree too |
| ModePrefix.FreeScan | cl_testbench/kmeans/getopt.c:404-413 | if the prefix letter is in no option text, options and operands are the same, and the events exactly unless the scan ends in a starved option, not the first event, that the hidden colon was to report |
| ModePrefix.PrefixLeaks | cl_testbench/kmeans/getopt.c:526-532 | a command line on which the second call accepts the prefix as an option |
| CommandLineRendering.ReadBack | cl_testbench/kmeans/getopt.c:165-186 | in every ordering, for every list of intended options and operands, in every allowed spelling (grouped, joined or separate arguments, full or abbreviated long names) and with or without a double dash, the reading gives back exactly the intended options and operands in order; with RETURN_IN_ORDER the operands are told in their place among the options and only those behind a double dash are left |
| CommandLineRendering.MeaningPermuted | cl_testbench/kmeans/getopt.c:172-175 | what PERMUTE makes of a line: the events of all its options, and all its operands |
| CommandLineRendering.MeaningUpToOperand | cl_testbench/kmeans/getopt.c:165-170 | REQUIRE_ORDER: the events before the first operand, and everything from it on as written |
| CommandLineRendering.MeaningInOrder | cl_testbench/kmeans/getopt.c:177-186 | RETURN_IN_ORDER: options and operands in their order, operands with the code 1; only what is behind a double dash is left |
| CommandLineRendering.ReadGroup | cl_testbench/kmeans/getopt.c:868-873 | the letters of a group are handed out one by one, the last with its argument |
| CommandLineRendering.ReadLong | cl_testbench/kmeans/getopt.c:708-811 | a full or unambiguous abbreviated long name with its argument in either spelling is that table entry |
| CommandLineRendering.ReadOption | cl_testbench/kmeans/getopt.c:616-620 | every written option is read as what it says and nothing after it is touched; without a long option table "--x" is the letters "-" and "x" |
| Getopt.OutlookRotated | cl_testbench/kmeans/getopt.c:559-563 | exchanging skipped operands with the options after them changes neither the events to come nor the final arrangement |
| Getopt.OutlookStep | cl_testbench/kmeans/getopt.c:865-1164 | decoding one option delivers the first of the remaining events and leaves the rest and the final arrangement as they were |
| Getopt.OutlookAtDashes | cl_testbench/kmeans/getopt.c:575-591 | at a double dash the scan is over and one exchange gives the final arrangement |
| Getopt.Scanner.constructor | cl_testbench/kmeans/getopt.c:116-157 | the globals before the first call |
| Getopt.Scanner.Initialize | cl_testbench/kmeans/getopt.c:386-450 | the record of non-options empty at optind; RETURN_IN_ORDER after "-", REQUIRE_ORDER after "+" or with POSIXLY_CORRECT set, PERMUTE otherwise |
| Getopt.Scanner.MoveSkippedUp | cl_testbench/kmeans/getopt.c:375-378 | the indices of the skipped non-options follow them to their new place |
| Getopt.Scanner.OptionsFirst | cl_testbench/kmeans/getopt.c:559-565 | options seen since the skipped non-options come before them; the outlook is unchanged |
| Getopt.Scanner.SkipNonoptions | cl_testbench/kmeans/getopt.c:557-573 | non-options are skipped up to the next option element; the outlook is unchanged and the indices stay in order |
| Getopt.Scanner.TakeDashes | cl_testbench/kmeans/getopt.c:580-591 | argv gets its final arrangement and the first non-option is recorded |
| Getopt.Scanner.Advance | cl_testbench/kmeans/getopt.c:546-621 | between elements: finished with argv and optind final, or a non-option handed out in order, or at the text of the next option element |
| Getopt.Scanner.ShortOption | cl_testbench/kmeans/getopt.c:867-1165 | return value, optarg, optopt, nextchar and optind after one option letter |
| Getopt.Scanner.LongOptionFound | cl_testbench/kmeans/getopt.c:708-811 | the same after a long option that is in the table |
| Getopt.Scanner.DecodeOption | cl_testbench/kmeans/getopt.c:638-1165 | long or short, including the fallback of long_only and the ambiguous and unknown names |
| Getopt.Scanner.Begin | cl_testbench/kmeans/getopt.c:524-555 | initialisation on the first call, and the record of non-options corrected if the caller moved optind back |
| Getopt.Scanner.TakeOption | cl_testbench/kmeans/getopt.c:616-1165 | one decoded option is the head of the outlook |
| Getopt.Scanner.Next | cl_testbench/kmeans/getopt.c:508-1166 | one call returns the next event of the left-to-right reading with optarg and optopt set, and keeps everything still to come, with 1 <= first_nonopt <= last_nonopt <= optind <= argc; or -1 with argv partitioned and optind at the first operand |
| Getopt.Scanner.ScanAll | cl_testbench/kmeans/read_input.c:132-150 | the caller's loop collects exactly the events of the reading |
| Getopt.Scanner.ScanFrom | cl_testbench/kmeans/getopt.c:548-555 | after the caller has moved optind, forwards or back, the scan reads what is there now, and the operands skipped before that place stay skipped and move behind it |
| Getopt.Scanner.ScanFromStart | cl_testbench/kmeans/getopt.c:526-532 | the first scan, and any later one after optind has been set to 0, reads argv from element 1 with the mode prefix stripped in its first call |
| Getopt.GetoptRun | cl_testbench/kmeans/getopt.c:386-468 | a whole run on a fresh program refines the reading of the original argv and leaves it stably partitioned: in order if the option string starts with "-", up to the first operand if it starts with "+" or POSIXLY_CORRECT is set, permuting otherwise |
| Getopt.GetoptTwice | cl_testbench/kmeans/getopt.c:94-106 | two permuting scans by one program: the second leaves argv as it is and delivers the same events, if and only if not both the last option is starved and there are operands |
| Getopt.GetoptReadsBack | cl_testbench/kmeans/getopt.c:165-186 | whatever options and operands the user wrote, in any order and spelling: by default the caller gets exactly the options and finds exactly the operands from optind on; with "+" or POSIXLY_CORRECT the options before the first operand, and the rest of the line as written; with "-" both in their order |
| Graphs.Graph.DistIsShortestPath | cl_testbench/bfs/bfs.cpp:18-23 | the distance used below is the edge count of a shortest node path |
| BfsPhase.VisitSlotsClosed | cl_testbench/bfs/bfs.cpp:44-50 | what visiting the first edges of a frontier node does to the arrays |
| BfsPhase.ExpandAllClosed | cl_testbench/bfs/bfs.cpp:40-52 | what expanding any list of nodes in any order does, in closed form |
| BfsPhase.OrderIrrelevant | cl_testbench/bfs/bfs.cpp:40-52 | two orders over the same nodes, even with repeats, leave identical mask, updating mask and costs |
| Bfs.HitIsNextLevel | cl_testbench/bfs/bfs.cpp:45-49 | the nodes marked in round k are exactly those at distance k + 1 |
| Bfs.RoundKeeps | cl_testbench/bfs/bfs.cpp:37-63 | after each round visited is the ball, the mask the sphere, the updating mask clear, costs exact or -1 |
| Bfs.RoundKeepsInAnyOrder | cl_testbench/bfs/bfs.cpp:40-63 | the same with the nodes of the first phase taken in any order |
| Bfs.NothingBeyond | cl_testbench/bfs/bfs.cpp:64-65 | when no frontier is left, every node with a walk from the source has been visited |
| Bfs.BooksKept | cl_testbench/bfs/bfs.cpp:37-65 | the edges looked at so far are those of the nodes expanded so far, each once, and every round with a frontier visits a new node |
| Bfs.EdgesFromCounts | cl_testbench/bfs/bfs.cpp:44-44 | the number of inner steps is the number of places of the edge list in the rows of the marked nodes |
| Bfs.Levels | cl_testbench/bfs/bfs.cpp:44-50 | exact distances in terms of the raw arrays: 0 at the source only, no row entry leads past the next level, and each node of another level is entered from the level before |
| Bfs.Prepare | cl_testbench/bfs/bfs.cpp:266-286 | the arrays that the search starts from |
| Bfs.VisitNode | cl_testbench/bfs/bfs.cpp:42-51 | one node of the first phase, with its number of inner steps |
| Bfs.ExpandFrontier | cl_testbench/bfs/bfs.cpp:40-52 | the first phase is the expansion in ascending order, and its inner steps are the edges of the frontier |
| Bfs.PromoteFrontier | cl_testbench/bfs/bfs.cpp:54-62 | the second phase, and the stop flag set exactly if something was marked |
| Bfs.RunBfsCpu | cl_testbench/bfs/bfs.cpp:32-66 | costs are shortest-path lengths, -1 exactly for unreachable nodes; rounds are the largest distance plus one and at most the number of nodes; round r expands exactly the nodes at distance r; inner steps are the edges of the reachable nodes |
| Bfs.RunFromSource | cl_testbench/bfs/bfs.cpp:264-287 | from main's initial state to exact distances, stated with walks and, independently, level by level over the raw arrays |
| LazyDefault.AdvanceKeeps | CL/cl.hpp:2464-2510 | one atomic step keeps the protocol's invariant, moves the state only from 1 to 2 or from 2 to 4, and changes nothing once it is 4 |
| LazyDefault.StepKeeps | CL/cl.hpp:5110-5169 | one step of any thread keeps both cells' invariants and the nesting of the two calls |
| LazyDefault.RunProgress | CL/cl.hpp:2464-2510 | along any run nothing is undone: states, the record of initialiser runs, and results of returned threads |
| LazyDefault.SameDefaultForAll | CL/cl.hpp:2462-2510 | at most one initialiser run per default, and all callers, whenever they return, get its object and error, published before any return |
| LazyDefault.GetsWhatWasMade | CL/cl.hpp:2490-2510 | every caller gets the very object and error that the initialiser made; of a queue whose context failed, no object and the context's error |
| LazyDefault.MakesOnce | CL/cl.hpp:2464-2490 | the initialiser runs at most once, whoever calls |
| LazyDefault.ReturnsAfterMaking | CL/cl.hpp:2464-2510 | nobody returns before it has run |
| LazyDefault.FailedContextFailsQueue | CL/cl.hpp:5137-5160 | if making the context failed, every default queue call returns no object and the context's error |
| LazyDefault.StepCounts | CL/cl.hpp:2477-2487 | a step other than spinning uses up the measure; spinning changes nothing |
| LazyDefault.MovesBounded | CL/cl.hpp:2477-2487 | under any schedule, fair or not, N threads together take at most 14 N steps other than spinning |
| LazyDefault.SomeoneIsReady | CL/cl.hpp:5110-5169 | no deadlock: while a thread has not returned, some thread has a step other than spinning, also when the queue's initialiser waits inside the context's |
| LazyDefault.ReadyStays | CL/cl.hpp:2477-2487 | a thread that can step stays able to |
| LazyDefault.AllReturn | CL/cl.hpp:5110-5169 | under any fair schedule every call returns |
| HandleCounts.ApplyBalanced | CL/cl.hpp:1717-1773 | every wrapper operation keeps references equal to owners exactly when its obligation is met |
| HandleCounts.AssignBalanced | CL/cl.hpp:1741-1747 | assignment between two wrappers never touches a dead object, also when both hold the same one |
| HandleCounts.AssignRawBalanced | CL/cl.hpp:1749-1754 | assignment of a raw handle takes over one loose reference, and only then stays balanced; destruction always does |
| HandleCounts.GetInfoBalanced | CL/cl.hpp:1213-1229 | getInfoHelper is balanced exactly if the handle is alive after the old object has been let go |
| HandleCounts.GetInfoAllBalanced | CL/cl.hpp:1118-1146 | the same for a vector of wrappers |
| HandleCounts.RetainAllStops | CL/cl.hpp:1135-1144 | at the first dead handle the retaining stops: those before it are retained, the others untouched |
| HandleCounts.ApplyObjects | CL/cl.hpp:1717-1773 | what each operation leaves in the wrappers: assignment the handle of the other side, copying and adopting one wrapper more, a told handle where it was asked for, NULL after destruction, and no other wrapper changed |
| HandleCounts.ApplyLoose | CL/cl.hpp:1749-1754 | of the references outside of the wrappers only that of an adopted or assigned raw handle goes |
| HandleCounts.ApplyReferences | CL/cl.hpp:1717-1773 | after any legal operation each counted object has one reference per wrapper that holds it, besides the loose ones, and each flag tells whether its wrapper counts |
| HandleCounts.AssignMovesOne | CL/cl.hpp:1741-1747 | assignment takes one reference from the old object, gives one to the new, and touches no other |
| HandleCounts.Conservation | CL/cl.hpp:1717-1773 | over every legal sequence of operations no dead object is retained or released, and each object has exactly as many references as owners |
| HandleCounts.UnguardedSelfAssignment | CL/cl.hpp:2533-2539 | self-assignment without the guard is wrong exactly if the wrapper holds the only reference |
| WrapperObjects.Wrapper.Copy | CL/cl.hpp:1812-1817 | the copy holds and counts the same object |
| WrapperObjects.Wrapper.AssignBase | CL/cl.hpp:1819-1826 | release, copy, retain, as changes of fields and counts |
| WrapperObjects.Wrapper.Assign | CL/cl.hpp:1934-1940 | the guarded assignment |
| WrapperObjects.Wrapper.AssignRaw | CL/cl.hpp:1828-1834 | release, then the raw handle with its flag recomputed |
| WrapperObjects.Wrapper.Destroy | CL/cl.hpp:1807-1810 | the reference is given back |
| WrapperObjects.Wrapper.GetInfo | CL/cl.hpp:1213-1229 | the told handle held and retained, success exactly if it was still alive |
| WrapperObjects.Program.DoGetInfoAll | CL/cl.hpp:1118-1146 | the vector version with its early return |
| WrapperObjects.Program.Do | CL/cl.hpp:1717-1866 | the objects hold afterwards what the operation says, every other wrapper unchanged, and the reference counts match the wrappers that hold each object |
| WrapperObjects.RunProgram | CL/cl.hpp:1717-1866 | a legal program run on wrapper objects ends in the predicted wrappers, with one reference to each counted object per wrapper that holds it |
| Version.GetVersion | CL/cl.hpp:1666-1683 | the two numbers between index 7, the first dot and the first space, packed in 32 bits; on every printed version below 65536.65536 it gives major * 65536 + minor |
| Version.BitOrShifted | CL/cl.hpp:1682-1682 | or-ing below shifted bits is addition |
| Version.PrintedParts | CL/cl.hpp:1666-1681 | every printed version is read back as its two numbers |
| Version.PackFaithful | CL/cl.hpp:1665-1683 | packing can be undone exactly if both numbers fit in 16 bits |
| Version.PackBits | CL/cl.hpp:1682-1682 | every bit of the answer, also for numbers that do not fit |
| Version.CountableIsLater | CL/cl.hpp:1785-1795 | the comparison means later than 1.1, up to the sign bit of the major number |
| Version.DeviceFlags | CL/cl.hpp:1802-1834 | after any legal program a device wrapper's flag is that test on the device it holds |
| Clusters.MembersAddUp | cl_testbench/kmeans/kmeans.cpp:258-261 | every point is counted in exactly one cluster |
| Clusters.TotalsAddUp | cl_testbench/kmeans/kmeans.cpp:267-270 | no feature is lost or counted twice |
| Clusters.MembersCount | cl_testbench/kmeans/kmeans.cpp:260-260 | a cluster counts the points whose membership names it |
| Clusters.NearestIsBest | cl_testbench/kmeans/rmse.c:41-59 | nearest centres give the least objective of all memberships |
| Clusters.MoveCoordinate | cl_testbench/kmeans/kmeans_clustering.c:161-163 | the exact change of the objective when one coordinate of one centre moves |
| Clusters.MeanChange | cl_testbench/kmeans/kmeans_clustering.c:163-163 | moving it to the mean lowers the objective by the members times the squared distance moved |
| Clusters.AveragingImproves | cl_testbench/kmeans/kmeans_clustering.c:160-167 | the averaging loop never increases the objective; empty clusters keep their centre |
| Kmeans.ShuffledPermutes | cl_testbench/kmeans/kmeans_clustering.c:123-129 | the index array stays a permutation at every step |
| Kmeans.PickSeeds | cl_testbench/kmeans/kmeans_clustering.c:108-130 | cluster i is seeded with point min(i, npoints-1-i) |
| Kmeans.SeedsDistinct | cl_testbench/kmeans/kmeans_clustering.c:90-93 | no point is picked twice if and only if 2*nclusters <= npoints+1 |
| Kmeans.SeedTwice | cl_testbench/kmeans/kmeans_clustering.c:90-93 | four points and three clusters: one point is picked twice |
| Kmeans.Accumulate | cl_testbench/kmeans/kmeans.cpp:257-271 | counts and feature sums per cluster, delta the number of changed memberships, membership the device's |
| Kmeans.MovedCount | cl_testbench/kmeans/kmeans.cpp:261-265 | delta counts the points whose membership changed, each once |
| Kmeans.KmeansOCL | cl_testbench/kmeans/kmeans.cpp:215-274 | the same, or -1 with nothing changed on a device error |
| Kmeans.Average | cl_testbench/kmeans/kmeans_clustering.c:160-167 | non-empty clusters get their means, and the accumulators are clear again |
| Kmeans.Iteration | cl_testbench/kmeans/kmeans_clustering.c:145-168 | one iteration: membership from the device, centres the means of the members |
| Kmeans.KmeansClustering | cl_testbench/kmeans/kmeans_clustering.c:76-176 | the whole run from the seeds, with nclusters centres or as many as there are points if those are fewer, each iteration following from the one before, stopped by the threshold or after 501 iterations |
| Kmeans.ObjectiveFalls | cl_testbench/kmeans/kmeans_clustering.c:145-169 | neither half of an iteration increases the objective |
| Kmeans.ObjectiveNeverRises | cl_testbench/kmeans/kmeans_clustering.c:145-169 | nor does any number of iterations |
| Kmeans.MeansOnce | cl_testbench/kmeans/kmeans_clustering.c:160-167 | averaging again over the same membership changes nothing |
| Kmeans.ConvergedIsFixed | cl_testbench/kmeans/kmeans_clustering.c:132-169 | with a threshold in [0, 1), a stop by the threshold is a device error or a fixed point: delta 0, at least two iterations, centres unmoved, every centre a mean and every point at a nearest centre |
| Rmse.EuclidDist2 | cl_testbench/kmeans/rmse.c:25-37 | the squared distance: zero exactly between equal points, the square of the difference between points that differ in one coordinate |
| Clusters.Dist2Update | cl_testbench/kmeans/rmse.c:34-35 | changing one coordinate changes the squared distance by the difference of the squares there, which with the two facts above determines it |
| Rmse.FindNearestPoint | cl_testbench/kmeans/rmse.c:40-59 | the first nearest centre, or an untouched index if none is nearer than FLT_MAX |
| Rmse.SumEuclid | cl_testbench/kmeans/rmse.c:68-89 | the accumulated sum is the objective of the nearest membership found; none exactly if some point has no centre nearer than FLT_MAX, where the source would use an index that was never set |
| Rmse.TiesDoNotMatter | cl_testbench/kmeans/rmse.c:79-89 | any two nearest memberships have the same objective, so the sum does not depend on how ties were broken |
| Rmse.ClusterAndMeasure | cl_testbench/kmeans/cluster.c:114-138 | clustering and then measuring: after a stop by a threshold in [0, 1) without a device error, the sum in rms_err is the objective of the membership that kmeans_clustering returned |
| Selection.FindLowest | cl_testbench/nn/nearestNeighbor.cpp:235-260 | distances permuted with the first topN ascending and nothing later smaller, records[i].distance == distances[i] for these, other records untouched; each rank's record is the one found in the place its distance was taken from; every entry genuine exactly under the input condition of GenuineExactly |
| Selection.TracksSwap | cl_testbench/nn/nearestNeighbor.cpp:248-255 | where distances and records come from after each step, and when the two agree |
| Selection.GaveWayStep | cl_testbench/nn/nearestNeighbor.cpp:242-255 | a distance loses its place only to a strictly smaller one, at every step |
| Selection.ListingRight | cl_testbench/nn/nearestNeighbor.cpp:248-258 | in terms of where the distances came from: each rank has its own record exactly if no selected distance started before its rank |
| Selection.GenuineExactly | cl_testbench/nn/nearestNeighbor.cpp:242-258 | on the input alone: every listed entry is a record with its own distance if every distance with fewer than topN smaller ones stands no earlier than their number; for different records, and a list that does not end between equal distances, only then; distances listed together with all their equals must satisfy it in any case |
| Selection.ListedTwice | cl_testbench/nn/nearestNeighbor.cpp:249-251 | two records for which the nearer one is listed twice |
| Selection.AllPairedOnlyIfInPlace | cl_testbench/nn/nearestNeighbor.cpp:242-259 | a full selection keeps all pairs only if no distance had to move |

## Left out

- Getopt.Scanner.Next: does not model the `W;` form of the option string, which in a plain getopt call reads a null table and on an ambiguous name advances past an element too many; the type of option strings, `OptString`, excludes it.
- Getopt.GetoptRun: does not model the `W;` form either, for the same reason.
- Getopt.Scanner.ShortOption: the same; no option string of the type `OptString` has the `W;` form.
- Getopt.Scanner.DecodeOption: the same.
- CommandLineLaws.ShortOutcome: the same.
- Selection.GenuineExactly: where the list ends between equal distances, the condition is proved sufficient, and necessary only for the distances before those.
- ModePrefix.ActualScan: does not cover long_only, where the prefix letter also decides whether an element is tried as a long name; FreeScan covers it for lines without that letter.
- Getopt.Scanner.Next: behaviour of calls after the first -1 is not stated.
- In getopt, characters are taken as non-negative codes, a returned value is told apart from the final -1 by a separate result, and the write through `longind` is part of the event; error messages, `opterr` and the glibc-only flags are not part of this model.
- CommandLineRendering.ReadBack: covers getopt and getopt_long; under long_only a group of letters may be read as a long name, so only the refinement covers it.
- run_bfs_gpu and the device kernels: the kernel sources are not part of this model; only the CPU reference and the order-independence of its phase are claimed. File reading in main is left out, and node ids are unbounded integers.
- LazyDefault.AllReturn: holds for the compare-and-swap builds without exceptions; the macOS build uses an atomic or, and a constructor that throws leaves the state at 2. Callers are modelled as always passing an error pointer, and memory as sequentially consistent.
- WrapperObjects.Wrapper.Assign: for types other than devices the flag is a model field that is true for every non-null handle; direct access to the raw handle through operator() is left out. A handle's runtime behaviour is its reference count only.
- Version.GetVersion: the accumulators are unbounded and reduced to 32 bits at the end, which agrees with two's-complement wrap-around.
- Floating-point rounding: k-means, the error measure and the selection are over the reals; the division by npoints and the square root of rms_err, and its parallel pragma, are left out.
- Kmeans.KmeansClustering: the device is a parameter, any function of iteration and centres; rows of the float matrices are values, so a row is copied and updated as a whole where the C code writes through a row pointer. The device is also assumed to answer nearest centres only where a lemma says so.
- Kernel set-up, buffers, timers, input files, the best-k sweep of cluster.c, work-size rounding and matrix multiplication: plumbing or easy.

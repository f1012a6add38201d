# Mercury declarative-debugger back end and BDD combination enumerator, in Dafny

This project models two pieces of the Mercury system.

**The back end of the declarative debugger** (`trace/mercury_trace_declarative.c`).
While declarative debugging is on, every trace event goes through
`MR_trace_decl_debug`. It filters the events and builds an annotated
execution tree (AET). The tree holds one node per accepted event, each linked
to its predecessor, the node of the previous accepted event. Exit, redo, fail
and exception nodes are also chained through their call node's "last
interface". Then, else and negation nodes resolve an earlier condition or
negation node. Later disjuncts point at the first disjunct of their
disjunction. When the last event of the window arrives, the tree goes to the
front end. The back end then jumps to the bug event, re-collects a deeper
subtree, or returns to the procedural debugger.

**The combination enumerator of the BDD timing drivers**
(`robdd/test_abunify.c` and `robdd/test_restrict.c`). `init_array` and
`next_array` step an int array through every strictly increasing n-tuple over
`{0, ..., varmax-1}` minus `v0`, in lexicographic order. Their code is the
same in both files, so one model serves both.

Layout:

| file | module | what |
|---|---|---|
| `goal_path.dfy` | `GoalPath` | goal-path predicates: `SameConstruct`, `SingleComponent`, `FirstDisjunct` |
| `aet.dfy` | `Aet` | ports, the tree as an arena of nodes, the interface chain, status resolution, the backward search |
| `events.dfy` | `Events` | the event record, atom naming (`AtomName` and `MakeAtom`, trace/mercury_trace_declarative.c:1023-1050 and 1090-1109, used by the call and interface nodes), and the reserved stack slots as a map |
| `backend.dfy` | `Backend` | the filter, the class `Collector` holding the back end's statics, the node builders and the controller |
| `combination.dfy` | `Combination` | the reference order on tuples, `InitArray`, `NextArray` and the driver loop `Enumerate` |

How the tree is modelled:

- The tree is an arena (`seq<Node>`) addressed by index. `Ref` is `Null` or
  `At(i)`.
- The Mercury-side walks `MR_DD_step_left_in_contour` and
  `MR_DD_find_prev_contour` are the two functions of a `Navigator`. The only
  thing assumed about them is that they move to an earlier node or off the
  root (`Sound`).
- The C's `MR_trace_matching_*` loops become one specification function,
  `FindLeft`. Every search method is proved equal to it, together with the
  exact amount it adds to the node-store counter (`SearchCost`).
- The port switch is the specification function `Step`: the arena after the
  node for an event is built, or the error that stops it. The builders are
  proved against the functions it is made of, and `Record` against `Step`.
- The answers of `MR_trace_retry` and of the front end are inputs (`Retry`,
  `Response`). So is whether the test-mode output file opened.

## Model

| member | source | states |
|---|---|---|
| GoalPath.SingleComponent | trace/mercury_trace_declarative.c:1010-1020 | true exactly when the text is one run of non-';' characters followed by a single final ';' |
| GoalPath.CommonPrefixLength | trace/mercury_trace_declarative.c:982-1000 | where the lock-step walk of same_construct stops: both paths agree before it, and differ at it unless one has ended |
| GoalPath.SameConstructReflexive | trace/mercury_trace_declarative.c:982-1007 | identical paths are in the same construct |
| GoalPath.SameConstructSymmetric | trace/mercury_trace_declarative.c:982-1007 | the answer does not depend on the argument order |
| GoalPath.SameConstructCharacterised | trace/mercury_trace_declarative.c:982-1020 | two paths are in the same construct exactly when they are equal, or when, after their common prefix, each remainder is a single component |
| GoalPath.SiblingsSameConstruct | trace/mercury_trace_declarative.c:982-1007 | conversely, a common prefix followed by one component on each side is always the same construct |
| GoalPath.FinalComponentsSameConstruct | trace/mercury_trace_declarative.c:982-1020 | any two single components are in the same construct, whether their texts agree or not |
| GoalPath.ExtensionNotSameConstruct | trace/mercury_trace_declarative.c:982-1020 | a path and a strict extension of it are never the same construct, because the empty remainder is not a single component |
| GoalPath.SameConstructExamples | trace/mercury_trace_declarative.c:982-1020 | "a;b;" matches "a;c;" but not "a;b;c;" |
| GoalPath.FirstDisjunct | trace/mercury_trace_declarative.c:909-927 | true exactly when the path ends with the three characters "d1;" |
| Aet.PortOf | trace/mercury_trace_declarative.c:364-410 | the port a node was built for: never a foreign-code port; a node has a goal path exactly for COND, NEG_ENTER, SWITCH and DISJ; it is an interface node exactly for EXIT, REDO, FAIL and EXCEPTION |
| Aet.IsFinal | trace/mercury_trace_declarative.c:313-325 | the ports at which the window's topmost call is left; CALL and REDO, which (re)enter it, are never final |
| Aet.Chain | trace/mercury_trace_declarative.c:480-625 | the interface chain from a node: it starts at that node, holds only interface nodes of the tree, and strictly descends |
| Aet.SetLast | trace/mercury_trace_declarative.c:505-507 | the call node's last interface is replaced, nothing else in that node changes, and every other node is untouched |
| Aet.AddInterface | trace/mercury_trace_declarative.c:480-625 | an interface node is appended, its call's last interface names the new node, nothing else in the call changes, and every other old node is untouched |
| Aet.ChainFrame | trace/mercury_trace_declarative.c:480-625 | changing a non-interface node leaves every interface chain as it was |
| Aet.NodeOkFrame | trace/mercury_trace_declarative.c:447-843 | a node's links stay well formed when nodes keep their kinds |
| Aet.AddInterfaceKeepsWellFormed | trace/mercury_trace_declarative.c:480-625 | adding an exit, redo, fail or exception node that stores the call's previous last interface keeps the tree well formed |
| Aet.AddInterfaceExtendsHistory | trace/mercury_trace_declarative.c:480-625 | after that, the call's interface history is the new node followed by the old history |
| Aet.AddInterfaceKeepsOtherHistories | trace/mercury_trace_declarative.c:480-625 | the interface history of every other call is unchanged |
| Aet.AppendKeepsWellFormed | trace/mercury_trace_declarative.c:447-843 | appending a node whose links are well formed keeps the tree well formed |
| Aet.SetStatus | trace/mercury_trace_declarative.c:641-780 | a condition or negation node gets the new status, nothing else in it changes, and every other node is untouched |
| Aet.SetStatusKeepsWellFormed | trace/mercury_trace_declarative.c:641-780 | setting a status keeps the tree well formed |
| Aet.SetStatusKeepsHistory | trace/mercury_trace_declarative.c:641-780 | setting a status changes no call's interface history |
| Aet.FirstOf | trace/mercury_trace_declarative.c:827-831 | the first disjunct of a matched DISJ node: the node itself when it is a first disjunct (first_disj is NULL), otherwise the one it records; always an earlier-or-equal first-disjunct node |
| Aet.FindLeft | trace/mercury_trace_declarative.c:890-979 | the search result, when there is one, is at or before the start and is accepted by the probe; a start that is accepted is the answer |
| Aet.CallProbe | trace/mercury_trace_declarative.c:891-906 | MR_trace_matching_call: accepts exactly call nodes and costs nothing |
| Aet.ConstructProbe | trace/mercury_trace_declarative.c:930-979 | MR_trace_matching_cond, _neg and _disj: accepts exactly a node of that port whose path is the same construct; reading the path costs one step of the counter exactly when the port matches |
| Aet.ExitProbe | trace/mercury_trace_declarative.c:527-532 | the redo search test: accepts exactly an exit node whose call has the event's sequence number; reading the seqno costs one step exactly for exit nodes |
| Events.SameSlotAddress | trace/mercury_trace_declarative.c:848-886 | two accesses meet in one slot exactly when both frames are on the same stack, reserve the same slot number, and are the same frame (the same sp on the det stack, the same curfr on the nondet stack) |
| Events.GetSlot | trace/mercury_trace_declarative.c:848-867 | a slot never written holds no node; a node read is the one stored at the procedure's reserved slot |
| Events.SetSlot | trace/mercury_trace_declarative.c:870-886 | read after write returns the node written; every other slot address reads as before |
| Events.SetSlotKeepsOtherFrames | trace/mercury_trace_declarative.c:870-886 | writing a procedure's slot leaves every read in another frame, on the other stack, or of another slot number as it was |
| Backend.Classify | trace/mercury_trace_declarative.c:289-349 | the filters in code order: a missed final event takes precedence, and an event builds a node exactly when it passes every filter |
| Backend.InsideAfter | trace/mercury_trace_declarative.c:313-337 | the window flag turns on exactly when the topmost call is entered, and off exactly when it is left through a final port |
| Backend.LeavingEventIsRecorded | trace/mercury_trace_declarative.c:313-349 | the event that leaves the topmost call switches the window off and still builds a node |
| Backend.PrevStart | trace/mercury_trace_declarative.c:1448-1460 | the previous contour of a node starts strictly before it; without a current node there is none |
| Backend.ExitCall | trace/mercury_trace_declarative.c:480-497 | the call of an EXIT or EXCEPTION: a call node of the tree; without slots, the current node when it is a call, otherwise a call at or before it |
| Backend.RedoCall | trace/mercury_trace_declarative.c:513-540 | the call of a REDO: a call node; without slots, one with the event's sequence number, found exactly when the exit search of the previous contour succeeds |
| Backend.FailCall | trace/mercury_trace_declarative.c:559-584 | the call of a FAIL: a call node; without slots, the current node when it is a call, otherwise a call at or before it |
| Backend.DisjFirst | trace/mercury_trace_declarative.c:796-843 | none for a first disjunct; otherwise a first-disjunct node strictly before the current node |
| Backend.AddInterfaceAppends | trace/mercury_trace_declarative.c:499-507 | adding an interface node appends one node after its predecessor; an old node changes at most in a call's last interface or a status |
| Backend.ResolveAppends | trace/mercury_trace_declarative.c:641-780 | resolving a condition or negation appends one node after its predecessor; an old node changes at most in a call's last interface or a status |
| Backend.Interface | trace/mercury_trace_declarative.c:368-407 | the EXIT, REDO, FAIL and EXCEPTION arms, when they succeed, append one node for the port after the current node; an old node changes at most in a call's last interface or a status |
| Backend.Outcome | trace/mercury_trace_declarative.c:386-400 | the THEN, ELSE, NEG_SUCCESS and NEG_FAILURE arms, when they succeed, append one node for the port after the current node; an old node changes at most in a call's last interface or a status |
| Backend.Disjunct | trace/mercury_trace_declarative.c:377-379 | the DISJ arm always succeeds for a first disjunct, and appends one DISJ node after the current node |
| Backend.Step | trace/mercury_trace_declarative.c:364-410 | the port switch: CALL, SWITCH, COND, NEG_ENTER and first disjuncts always get a node; foreign-code ports never do; a success appends one node for the event's port after the current node, the old nodes changing at most in a call's last interface or a status |
| Backend.Collector.constructor | trace/mercury_trace_declarative.c:116-145 | the back end's statics before the first collection |
| Backend.Collector.PrevContour | trace/mercury_trace_declarative.c:1448-1460 | one step of the counter, then the Mercury walk, which lands on an earlier node |
| Backend.Collector.SearchLeft | trace/mercury_trace_declarative.c:1433-1445 | the step-left loop returns FindLeft's answer and advances the counter by exactly SearchCost |
| Backend.Collector.MatchingCall | trace/mercury_trace_declarative.c:891-906 | the search for the matching call node ends on a call node |
| Backend.Collector.BuildCall | trace/mercury_trace_declarative.c:448-477 | a call node after the current node, at the depth limit exactly when depth equals max_depth, with the last interface empty; the slot names it when slots are used |
| Backend.Collector.AddInterfaceNode | trace/mercury_trace_declarative.c:499-507 | the interface node goes onto its call's chain, and the call's history grows by exactly that node |
| Backend.Collector.BuildExit | trace/mercury_trace_declarative.c:480-510 | the call comes from the slot, or from the search for the matching call; the exit node records the call and its previous last interface and becomes the call's last interface |
| Backend.Collector.BuildExcp | trace/mercury_trace_declarative.c:599-625 | the same for an exception node |
| Backend.Collector.BuildRedo | trace/mercury_trace_declarative.c:513-556 | the call found is RedoCall's; without slots the counter advances by one for the contour, the exit search's cost, and one more when an exit is found; the redo node chains onto the call |
| Backend.Collector.BuildFail | trace/mercury_trace_declarative.c:559-596 | the call found is FailCall's; the counter moves only when the predecessor is not a call, by one for the contour plus the search's cost; the fail node chains onto the call |
| Backend.Collector.AppendNode | trace/mercury_trace_declarative.c:628-638 | a node that resolves nothing is appended after the current node |
| Backend.Collector.Resolve | trace/mercury_trace_declarative.c:641-780 | the found node's status is set, then the new node is appended |
| Backend.Collector.BuildThen | trace/mercury_trace_declarative.c:641-667 | the nearest matching condition in the same construct is marked succeeded and a then node refers to it |
| Backend.Collector.BuildElse | trace/mercury_trace_declarative.c:670-704 | the same condition that the search finds, despite the extra check of the predecessor, is marked failed and an else node refers to it |
| Backend.Collector.BuildNegSuccess | trace/mercury_trace_declarative.c:720-754 | the nearest matching negation, checking the current node first, is marked succeeded |
| Backend.Collector.BuildNegFailure | trace/mercury_trace_declarative.c:757-780 | the nearest matching negation is marked failed |
| Backend.Collector.BuildDisj | trace/mercury_trace_declarative.c:796-843 | the first disjunct referred to is DisjFirst's; a path ending in "d1;" builds a first-disjunct node at no cost; otherwise the counter advances by one plus the search's cost, and the later-disjunct node records the first disjunct |
| Backend.Collector.RecordInterface | trace/mercury_trace_declarative.c:368-407 | EXIT, REDO, FAIL and EXCEPTION succeed exactly when Step does, leave the arena Step gives, and change nothing on an error |
| Backend.Collector.RecordOutcome | trace/mercury_trace_declarative.c:386-400 | THEN, ELSE, NEG_SUCCESS and NEG_FAILURE succeed exactly when Step does, leave the arena Step gives, and change nothing on an error |
| Backend.Collector.RecordConstruct | trace/mercury_trace_declarative.c:377-394 | SWITCH, COND, NEG_ENTER and DISJ succeed exactly when Step does, leave the arena Step gives, and change nothing on an error |
| Backend.Collector.BuildNode | trace/mercury_trace_declarative.c:364-410 | every port succeeds exactly when Step does and leaves the arena Step gives; only a CALL writes a slot |
| Backend.Collector.Record | trace/mercury_trace_declarative.c:363-412 | the arena is Step's and the new node becomes current; CALL, SWITCH, COND, NEG_ENTER and first disjuncts always succeed; foreign-code ports fail; an error changes neither the arena nor the current node |
| Backend.Collector.Admit | trace/mercury_trace_declarative.c:289-349 | the filters give Classify's verdict; a missed final event makes the mode interactive; the window flag changes only once the depth filter is passed, so also for events the later filters drop |
| Backend.Collector.Accept | trace/mercury_trace_declarative.c:361-445 | the action is fatal exactly on a builder error, a foreign-code port, or an interactive mode at the last event, and tracing is then off; only a CALL with reserved slots writes a slot; unless the diagnosis runs, the window (last event, start sequence number, depth limit), the window flag and the command are kept, the mode changes only to interactive at the last event, and a successful node becomes current; before the last event tracing is back on; at the last event test mode returns interactive with tracing off; in normal mode a deeper-subtree restart sets the new window, GOTO 0 and an empty tree, and otherwise the tree and window are kept, interactive, with GOTO the bug event only when a bug was found and the retry worked |
| Backend.Collector.TraceEvent | trace/mercury_trace_declarative.c:279-445 | a dropped event changes nothing but the window flag (and the mode for a missed final event), with the action its verdict calls for; an accepted one ends exactly as Accept states, the window flag being the one the filters left |
| Backend.Collector.StartCollecting | trace/mercury_trace_declarative.c:1231-1273 | a failed retry returns its message and changes nothing; a successful one sets the window, clears the current node, starts a fresh tree and single-steps |
| Backend.Collector.RestartDeclDebug | trace/mercury_trace_declarative.c:1207-1228 | collect again, max_depth + 3 deep; if the retry fails, return to the debugger interactive and with tracing on, leaving the window alone |
| Backend.Collector.HandleBugFound | trace/mercury_trace_declarative.c:1330-1358 | retry and GOTO the bug event, or on a failed retry enter the debugger; interactive with tracing on either way |
| Backend.Collector.Diagnosis | trace/mercury_trace_declarative.c:1276-1327 | tracing is back on; a subtree request without a bug and with a working retry restarts collection with the new window, GOTO 0 and an empty tree; every other answer returns interactive with the tree, the current node and the window unchanged, a GOTO to the bug event only when a bug was found and the retry worked |
| Backend.Collector.EnsureInit | trace/mercury_trace_declarative.c:1112-1131 | the node counter is zeroed on the first initialisation only |
| Backend.Collector.StartDeclDebug | trace/mercury_trace_declarative.c:1134-1204 | refuses procedures with no execution tracing, compiler-generated ones and ones with no slot, and a test file that does not open, changing nothing; otherwise sets the mode and initialises the counter, and starts collecting call depth + 3 deep; succeeds exactly when all checks pass and the retry works; when only the retry fails, the window, current node, tree, command and tracing flag are left as they were |
| Combination.Climb | robdd/test_abunify.c:33-36 | consecutive allowed values from a given rank |
| Combination.Initial | robdd/test_abunify.c:29-37 | the first tuple has the requested length |
| Combination.RankOfAllowed | robdd/test_abunify.c:54 | an allowed value is the allowed value of its rank, and bumping it gives the next rank |
| Combination.CombinationWithinBounds | robdd/test_abunify.c:51-56 | a combination satisfies the bounds next_array relies on |
| Combination.BumpVal | robdd/test_abunify.c:54 | bumping the allowed value of rank r gives the allowed value of rank r + 1 |
| Combination.BumpWithin | robdd/test_abunify.c:53-55 | a bumped entry stays within a position's maximum exactly when the entry was below it |
| Combination.RanksSpread | robdd/test_abunify.c:21-25 | in a strictly increasing tuple, ranks grow at least as fast as positions |
| Combination.CombinationBounds | robdd/test_abunify.c:51-56 | every entry lies between its position's least and greatest possible values |
| Combination.FirstDifference | robdd/test_abunify.c:21-25 | two different tuples of one length differ first at some position |
| Combination.LexTotal | robdd/test_abunify.c:21-25 | the lexicographic order is total on different tuples of one length |
| Combination.LexAsymmetric | robdd/test_abunify.c:21-25 | the order is asymmetric |
| Combination.LexTransitive | robdd/test_abunify.c:21-25 | the order is transitive |
| Combination.InitialIsLeast | robdd/test_abunify.c:29-37 | init_array's tuple is a combination and the least one |
| Combination.LastIsGreatest | robdd/test_abunify.c:51-52 | a tuple with every entry at its maximum is the greatest combination |
| Combination.Pivot | robdd/test_abunify.c:51-56 | the pivot the backward search stops at is -1 or a position at or before the start |
| Combination.PivotIsRightmost | robdd/test_abunify.c:51-56 | the pivot is below its maximum and every position after it is at its maximum |
| Combination.PivotOf | robdd/test_abunify.c:51-56 | conversely, such a position is the pivot |
| Combination.Successor | robdd/test_abunify.c:51-64 | the successor has the same length |
| Combination.HasSuccessorIffNotLast | robdd/test_abunify.c:51-52 | a tuple has a successor exactly when it is not the last one |
| Combination.SuccessorShape | robdd/test_abunify.c:57-63 | the successor keeps the prefix before the pivot, bumps the pivot and climbs from there |
| Combination.SuccessorIsCombination | robdd/test_abunify.c:51-64 | the successor is strictly increasing, avoids v0 and stays below varmax |
| Combination.ClimbIsLeast | robdd/test_abunify.c:57-63 | a climbing suffix from the least possible value is lexicographically least |
| Combination.NoGrowthRightOfPivot | robdd/test_abunify.c:51-56 | to the right of the pivot no combination can have a larger entry |
| Combination.SuccessorIsLeastAbove | robdd/test_abunify.c:51-64 | every combination above a tuple is at or above its successor |
| Combination.SuccessorIsNext | robdd/test_abunify.c:51-64 | the successor of a non-last combination is a combination, above it, with nothing in between |
| Combination.FilledIsSuccessor | robdd/test_abunify.c:57-63 | the array after the second loop is the successor |
| Combination.CodeBounds | robdd/test_abunify.c:109-114 | the numeric code of a tuple lies in [0, varmax^n) |
| Combination.LexCode | robdd/test_abunify.c:109-114 | a lexicographically smaller tuple has a smaller code, so the driver loop terminates |
| Combination.InitArray | robdd/test_abunify.c:29-37 | writes exactly the first tuple into array[0..top) and nothing else (the same routine is robdd/test_restrict.c:30-38) |
| Combination.FindPivot | robdd/test_abunify.c:51-56 | the first loop stops at the pivot (or -1), with the entries from the pivot on bumped and the rest untouched |
| Combination.FillAfterPivot | robdd/test_abunify.c:60-63 | the second loop climbs from the pivot's new value up to position n, touching nothing else |
| Combination.NextArray | robdd/test_abunify.c:41-65 | returns 0 exactly for the last tuple, leaving every entry bumped; returns 1 with the array holding the lexicographic successor; never writes past position n (the same routine is robdd/test_restrict.c:42-66) |
| Combination.EnumerationStarts | robdd/test_abunify.c:109-111 | the first tuple alone is an enumeration |
| Combination.AppendKeepsOrder | robdd/test_abunify.c:112-114 | appending a larger tuple keeps the list strictly increasing |
| Combination.AppendKeepsComplete | robdd/test_abunify.c:112-114 | appending the next tuple keeps the list complete up to its last element |
| Combination.AppendKeepsEnumerated | robdd/test_abunify.c:112-114 | both together keep an enumeration |
| Combination.SuccessorRaisesCode | robdd/test_abunify.c:112-114 | each step raises the code, which stays below varmax^n |
| Combination.EnumerationSteps | robdd/test_abunify.c:112-114 | extending an enumeration by the successor gives an enumeration |
| Combination.RunExtends | robdd/test_abunify.c:112-114 | a run extended by its last tuple's successor is a run |
| Combination.RunSteps | robdd/test_abunify.c:112-114 | one step of the driver keeps a run of combinations and raises the code |
| Combination.RunIsEnumerated | robdd/test_abunify.c:109-114 | every run is strictly increasing and misses nothing up to its end |
| Combination.EnumerationEnds | robdd/test_abunify.c:21-25 | an enumeration that reaches the last tuple lists every combination |
| Combination.Enumerate | robdd/test_abunify.c:109-114 | starting from init_array and calling next_array until it returns 0 visits every combination exactly once, in increasing order, and stops at the last one (the same loop is robdd/test_restrict.c:130-136) |

## Left out

- I/O is not modelled: the warnings and error messages on the error stream, the test-mode output file (`MR_decl_diagnosis_test`, `MR_trace_store_file`), and the debug checkpoint printing. Whether the test file opens is an input to `StartDeclDebug`.
- The Mercury-side tree operations are abstract. `MR_DD_construct_*` is node construction in the arena. `MR_DD_step_left_in_contour` and `MR_DD_find_prev_contour` are the `Navigator`. `MR_DD_decl_diagnosis` is the `Response` input. `MR_DD_trace_node_first_disj` is taken to answer NULL exactly for a first disjunct.
- `MR_trace_retry` and `MR_trace_event_internal` are engine calls. The retry is an input, and entering the procedural debugger is the `EnterDebugger` action. Code addresses are plain numbers.
- The front end's own state and its set-up in `MR_trace_decl_ensure_init` are not modelled. Only the counter reset there is modelled.
- `MR_decl_atom_args` (argument capture, heap tagging) and `MR_trace_get_exception_value` are not modelled. Atoms carry name, kind and arity only, and exception nodes carry no value.
- The engine globals `MR_trace_call_seqno`, `MR_trace_call_depth` and `MR_trace_event_number` are not modelled. The back end saves and restores them unchanged, and the model uses the event's own number throughout.
- Raw stack-frame addressing is not modelled: a reserved slot is a key of a map, and an unwritten slot reads as `Null`. `MR_USE_DECL_STACK_SLOT` is the constant `useSlots`, so both builds are covered.
- The search loops in the C have no guard against running off the root: there they rely on a match being reachable. The model returns an error when a walk reaches `Null` instead of demanding that as a precondition. That error is fatal, like the C's fatal errors. The same applies to a slot that does not hold a call node and to a redo that finds no matching exit.
- Backend.Collector.Resolve: the status of a condition or negation node is set every time a THEN, ELSE, NEG_SUCCESS or NEG_FAILURE event resolves it, exactly as the code does. That it happens only once depends on the event stream and is not enforced.
- Backend.Collector.BuildDisj: constructing a later-disjunct node passes the counter to the front end without advancing it, and the model follows the code in this. Only the contour walks, the path and seqno reads and the redo's call lookup advance it.
- Backend.Collector.StartCollecting: the C leaves the old tree to the garbage collector. The model starts a fresh arena, which is unobservable because nothing refers to the old nodes any more.
- Backend.Collector.StartDeclDebug: the mode is set and the counter initialised before the retry, as in the code, so a failed retry leaves the requested mode set. Everything else (the window, the current node, the tree, the command and the tracing flag) is left as it was.
- Unsigned wrap-around of event numbers, depths and the node counter is not modelled; they are unbounded naturals.
- The timing code of the BDD drivers (`main`, `doit`, `inner_loop`, clocks, the BDD operations) is not modelled. The argument checks of `main` become the preconditions of `Enumerate`.
- Combination.NextArray: the C routine is one function with two loops. The model splits the loops into `FindPivot` and `FillAfterPivot`, and `NextArray` calls them in the same order.
- Combination.NextArray: it requires the array to satisfy the bounds every combination satisfies (`WithinBounds`), which `CombinationWithinBounds` shows of every tuple the driver produces.
- Combination.InitArray: it requires `0 <= v0`. Every caller passes the counter of a loop that starts at 0 (robdd/test_abunify.c:109 and 167, robdd/test_restrict.c:128 and 145). The requirement is needed because for a negative `v0` the C writes 0..top-1 and never skips, while the model's `Val` maps every rank at or above `v0` one higher and would give 1..top.

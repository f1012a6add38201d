/**
 * The declarative debugger's back end: the per-event filter that decides
 * which trace events become nodes of the annotated execution tree, the
 * per-port node builders with their backward searches, and the controller
 * that starts, restarts and ends a collection.
 *
 * The back end's static variables are the fields of one `Collector`.  The
 * engine's retry and the front end's verdict are inputs; the Mercury-side
 * contour walks are the collector's `Navigator`.
 */
module Backend {
  import opened GoalPath
  import opened Aet
  import opened Events

  /** MR_EDT_DEPTH_STEP_SIZE: how many levels below the anchor call a collection reaches. */
  const DepthStep: nat := 3

  /** MR_trace_decl_mode. */
  datatype Mode = Interactive | DeclDebug | DeclDebugTest

  datatype CmdKind = Goto | OtherCmd
  datatype PrintLevel = PrintNone | PrintSome

  /** The fields of the tracer's command record (MR_Trace_Cmd_Info) that the back end writes. */
  datatype Cmd = Cmd(kind: CmdKind, stopEvent: nat, strict: bool, printLevel: PrintLevel, mustCheck: bool)

  /** Go, strictly and silently, to event `stop` (0: stop at the next event). */
  function GotoCmd(stop: nat): Cmd {
    Cmd(Goto, stop, true, PrintNone, false)
  }

  /** The outcome of MR_trace_retry: an address to resume at, or an error message. */
  datatype Retry = Retried(jump: nat) | RetryFailed(msg: string)

  /** The part of the front end's response that asks for a deeper subtree. */
  datatype Subtree = Subtree(finalEvent: nat, seqno: nat)

  /**
   * The front end's response, as the two queries on it read it
   * (MR_DD_diagnoser_bug_found, MR_DD_diagnoser_require_subtree).
   */
  datatype Response = Response(bugEvent: Option<nat>, subtree: Option<Subtree>)

  /** What the back end hands back to the tracer. */
  datatype Action =
    | Proceed             // NULL: carry on executing
    | EnterDebugger       // MR_trace_event_internal: back to the procedural debugger here
    | JumpTo(addr: nat)   // resume at the address a retry produced
    | Fatal(msg: string)  // MR_fatal_error

  // ---------------------------------------------------------------------
  // The event filter of MR_trace_decl_debug

  /** Why an event builds no node, or that it builds one. */
  datatype Verdict = MissedFinal | NoExecTrace | TooDeep | Outside | CompilerGenerated | NoSlot | Accepted

  /**
   * The filters of MR_trace_decl_debug in the order the code applies them.
   * An event builds a node exactly when it passes all of them.
   */
  function Classify(lastEvent: nat, maxDepth: nat, inside: bool, startSeqno: nat, useSlots: bool, ev: Event): (v: Verdict)
    ensures ev.number > lastEvent ==> v == MissedFinal
    ensures v == Accepted <==>
              && ev.number <= lastEvent
              && ev.entry.hasExecTrace
              && ev.depth <= maxDepth
              && (inside || ev.seqno == startSeqno)
              && !ev.entry.compilerGenerated
              && !(useSlots && ev.entry.declSlot < 1)
  {
    if ev.number > lastEvent then MissedFinal
    else if !ev.entry.hasExecTrace then NoExecTrace
    else if ev.depth > maxDepth then TooDeep
    else if !inside && ev.seqno != startSeqno then Outside
    else if ev.entry.compilerGenerated then CompilerGenerated
    else if useSlots && ev.entry.declSlot < 1 then NoSlot
    else Accepted
  }

  /**
   * MR_edt_inside after an event that got past the depth filter: it turns on
   * exactly when the topmost call is (re)entered, and off exactly when the
   * topmost call is left through a final port.
   */
  function InsideAfter(inside: bool, startSeqno: nat, ev: Event): (b: bool)
    ensures !inside ==> (b <==> ev.seqno == startSeqno)
    ensures inside ==> (!b <==> ev.seqno == startSeqno && IsFinal(ev.port))
  {
    if inside then !(ev.seqno == startSeqno && IsFinal(ev.port))
    else ev.seqno == startSeqno
  }

  /**
   * The event that leaves the topmost call still builds a node, although
   * it switches the window off.
   */
  lemma LeavingEventIsRecorded(lastEvent: nat, maxDepth: nat, startSeqno: nat, useSlots: bool, ev: Event)
    requires ev.number <= lastEvent && ev.entry.hasExecTrace && ev.depth <= maxDepth
    requires !ev.entry.compilerGenerated && !(useSlots && ev.entry.declSlot < 1)
    requires ev.seqno == startSeqno && IsFinal(ev.port)
    ensures Classify(lastEvent, maxDepth, true, startSeqno, useSlots, ev) == Accepted
    ensures !InsideAfter(true, startSeqno, ev)
  {
  }

  /** Locating a call through its reserved slot: the slot must hold a call node. */
  function SlotCall(arena: seq<Node>, r: Ref): Result<nat>
  {
    if r.At? && r.i < |arena| && arena[r.i].CallNode? then Ok(r.i)
    else Err("decl slot does not hold a call node")
  }

  /** The search test of MR_trace_matching_cond / _neg / _disj for one event path. */
  function Matching(port: Port, path: string): Node -> Probe {
    n => ConstructProbe(port, path, n)
  }

  /** The search test of the redo builder for one call sequence number. */
  function ExitMatching(arena: seq<Node>, seqno: nat): Node -> Probe {
    n => ExitProbe(arena, seqno, n)
  }

  // ---------------------------------------------------------------------
  // What the port switch builds

  /**
   * Where a search of the previous contour of `cur` starts
   * (MR_trace_find_prev_contour).  Without a current node there is no
   * contour, and a search from NULL fails at once.
   */
  function PrevStart(nav: Navigator, arena: seq<Node>, cur: Ref): (r: Ref)
    requires Sound(nav)
    ensures cur.Null? ==> r.Null?
    ensures cur.At? ==> Before(r, cur.i)
  {
    if cur.Null? then Null else nav.prevContour(arena, cur.i)
  }

  /**
   * The call an EXIT or EXCEPTION event belongs to: the one its reserved
   * slot holds, or else the nearest call stepping left in the contour from
   * the current node (MR_trace_matching_call).
   */
  function ExitCall(nav: Navigator, useSlots: bool, arena: seq<Node>, slots: Slots, cur: Ref, ev: Event): (r: Result<nat>)
    requires Sound(nav)
    ensures r.Ok? ==> r.value < |arena| && arena[r.value].CallNode?
    ensures !useSlots && r.Ok? ==> cur.At? && r.value <= cur.i
    ensures !useSlots && cur.At? && cur.i < |arena| && arena[cur.i].CallNode? ==> r == Ok(cur.i)
  {
    if useSlots then SlotCall(arena, GetSlot(slots, ev.entry, ev.regs))
    else FindLeft(nav, arena, CallProbe, cur)
  }

  /**
   * The call a REDO event belongs to: the one its reserved slot holds, or
   * else the call of the nearest EXIT in the previous contour whose call
   * has the event's sequence number.  Once such an exit is found its call
   * is always there.
   */
  function RedoCall(nav: Navigator, useSlots: bool, arena: seq<Node>, slots: Slots, cur: Ref, ev: Event): (r: Result<nat>)
    requires Sound(nav)
    ensures r.Ok? ==> r.value < |arena| && arena[r.value].CallNode?
    ensures !useSlots && r.Ok? ==> arena[r.value].seqno == ev.seqno
    ensures !useSlots ==>
              (r.Ok? <==> FindLeft(nav, arena, ExitMatching(arena, ev.seqno), PrevStart(nav, arena, cur)).Ok?)
  {
    if useSlots then SlotCall(arena, GetSlot(slots, ev.entry, ev.regs))
    else match FindLeft(nav, arena, ExitMatching(arena, ev.seqno), PrevStart(nav, arena, cur))
      case Err(m) => Err(m)
      case Ok(e) =>
        assert ExitProbe(arena, ev.seqno, arena[e]).hit;
        match SlotCall(arena, arena[e].call)
        case Ok(c) => Ok(c)
        case Err(_) => Err("MR_trace_decl_redo: no matching EXIT")
  }

  /**
   * The call a FAIL event belongs to: the one its reserved slot holds;
   * else the current node when it is a call; else the nearest call
   * stepping left from the previous contour.
   */
  function FailCall(nav: Navigator, useSlots: bool, arena: seq<Node>, slots: Slots, cur: Ref, ev: Event): (r: Result<nat>)
    requires Sound(nav)
    ensures r.Ok? ==> r.value < |arena| && arena[r.value].CallNode?
    ensures !useSlots && r.Ok? ==> cur.At? && r.value <= cur.i
    ensures !useSlots && cur.At? && cur.i < |arena| && arena[cur.i].CallNode? ==> r == Ok(cur.i)
  {
    if useSlots then SlotCall(arena, GetSlot(slots, ev.entry, ev.regs))
    else if cur.At? && cur.i < |arena| && arena[cur.i].CallNode? then Ok(cur.i)
    else FindLeft(nav, arena, CallProbe, PrevStart(nav, arena, cur))
  }

  /**
   * The first-disjunct node a DISJ event refers to: none for a first
   * disjunct; otherwise the first disjunct of the nearest DISJ node of the
   * same disjunction, stepping left from the previous contour.
   */
  function DisjFirst(nav: Navigator, arena: seq<Node>, cur: Ref, path: string): (r: Result<Ref>)
    requires Sound(nav) && WellFormed(arena)
    ensures FirstDisjunct(path) ==> r == Ok(Null)
    ensures !FirstDisjunct(path) && r.Ok? ==>
              && cur.At? && r.value.At? && r.value.i < cur.i && r.value.i < |arena|
              && arena[r.value.i].FirstDisjNode?
  {
    if FirstDisjunct(path) then Ok(Null)
    else match FindLeft(nav, arena, Matching(Disj, path), PrevStart(nav, arena, cur))
      case Err(m) => Err(m)
      case Ok(j) =>
        assert ConstructProbe(Disj, path, arena[j]).hit;
        Ok(FirstOf(arena, j))
  }

  /**
   * `y` is `x`, or `x` with only its last interface event or only its
   * status changed.
   */
  predicate Revised(x: Node, y: Node) {
    || y == x
    || (x.CallNode? && y.CallNode? && y.(last := x.last) == x)
    || (((x.CondNode? && y.CondNode?) || (x.NegNode? && y.NegNode?)) && y.(status := x.status) == x)
  }

  /**
   * `a` is `before` with one more node, built for an event at `port`, whose
   * predecessor is `prev`; of the nodes already there, at most a call's
   * last interface event or a condition's or negation's status changed.
   */
  predicate Appended(before: seq<Node>, a: seq<Node>, prev: Ref, port: Port) {
    && |a| == |before| + 1 && a[|before|].prev == prev && PortOf(a[|before|]) == port
    && forall k :: 0 <= k < |before| ==> Revised(before[k], a[k])
  }

  /** Appending a node keeps every old node. */
  lemma AppendAppends(arena: seq<Node>, n: Node)
    ensures Appended(arena, arena + [n], n.prev, PortOf(n))
  {
    assert forall k :: 0 <= k < |arena| ==> (arena + [n])[k] == arena[k];
  }

  /** The tail of the interface builders appends a node and keeps the old ones, up to one call's last event. */
  lemma AddInterfaceAppends(arena: seq<Node>, c: nat, n: Node)
    requires c < |arena| && arena[c].CallNode?
    ensures Appended(arena, AddInterface(arena, c, n), n.prev, PortOf(n))
  {
    var a := AddInterface(arena, c, n);
    forall k | 0 <= k < |arena|
      ensures Revised(arena[k], a[k])
    {
      if k == c {
        assert arena[k].CallNode? && a[k].CallNode? && a[k].(last := arena[k].last) == arena[k];
      }
    }
  }

  /** Resolving a condition or negation and appending a node keeps the old nodes, up to that status. */
  lemma ResolveAppends(arena: seq<Node>, j: nat, s: Status, n: Node)
    requires j < |arena| && (arena[j].CondNode? || arena[j].NegNode?)
    ensures Appended(arena, SetStatus(arena, j, s) + [n], n.prev, PortOf(n))
  {
    var a := SetStatus(arena, j, s) + [n];
    forall k | 0 <= k < |arena|
      ensures Revised(arena[k], a[k])
    {
      if k == j {
        assert a[k] == SetStatus(arena, j, s)[k];
      }
    }
  }

  /**
   * The node an EXIT, REDO, FAIL or EXCEPTION event adds for the call at
   * position `c` whose last interface event was `last`.
   */
  function InterfaceNode(ev: Event, cur: Ref, c: nat, last: Ref): (n: Node)
    requires ev.port in {Exit, Redo, Fail, Exception}
    ensures IsInterface(n) && PortOf(n) == ev.port && n.prev == cur && n.prior == last
    ensures !n.RedoNode? ==> n.call == At(c)
  {
    match ev.port
    case Exit => ExitNode(cur, At(c), last, MakeAtom(ev.entry), ev.number)
    case Redo => RedoNode(cur, last)
    case Fail => FailNode(cur, At(c), last, ev.number)
    case Exception => ExcpNode(cur, At(c), last, ev.number)
  }

  /**
   * The arms of the port switch for EXIT, REDO, FAIL and EXCEPTION: find
   * the call, append the node and make it the call's last interface event.
   */
  function Interface(nav: Navigator, useSlots: bool, arena: seq<Node>, slots: Slots, cur: Ref, ev: Event)
    : (r: Result<seq<Node>>)
    requires Sound(nav) && ev.port in {Exit, Redo, Fail, Exception}
    ensures r.Ok? ==> Appended(arena, r.value, cur, ev.port)
  {
    var call := if ev.port == Redo then RedoCall(nav, useSlots, arena, slots, cur, ev)
                else if ev.port == Fail then FailCall(nav, useSlots, arena, slots, cur, ev)
                else ExitCall(nav, useSlots, arena, slots, cur, ev);
    match call
    case Err(m) => Err(m)
    case Ok(c) =>
      var node := InterfaceNode(ev, cur, c, arena[c].last);
      AddInterfaceAppends(arena, c, node);
      Ok(AddInterface(arena, c, node))
  }

  /** The node a THEN, ELSE, NEG_SUCCESS or NEG_FAILURE event adds for the construct at position `j`. */
  function OutcomeNode(ev: Event, cur: Ref, j: nat): (n: Node)
    requires ev.port in {Then, Else, NegSuccess, NegFailure}
    ensures PortOf(n) == ev.port && n.prev == cur
  {
    match ev.port
    case Then => ThenNode(cur, At(j))
    case Else => ElseNode(cur, At(j))
    case NegSuccess => NegSuccNode(cur, At(j))
    case NegFailure => NegFailNode(cur, At(j))
  }

  /**
   * The arms of the port switch for THEN, ELSE, NEG_SUCCESS and
   * NEG_FAILURE: search the contour for the condition or negation of the
   * same construct, record whether it succeeded and append the node.
   */
  function Outcome(nav: Navigator, arena: seq<Node>, cur: Ref, ev: Event): (r: Result<seq<Node>>)
    requires Sound(nav) && ev.port in {Then, Else, NegSuccess, NegFailure}
    ensures r.Ok? ==> Appended(arena, r.value, cur, ev.port)
  {
    var opener := if ev.port in {Then, Else} then Cond else NegEnter;
    match FindLeft(nav, arena, Matching(opener, ev.path), cur)
    case Err(m) => Err(m)
    case Ok(j) =>
      assert ConstructProbe(opener, ev.path, arena[j]).hit;
      var status := if ev.port in {Then, NegSuccess} then Succeeded else Failed;
      var node := OutcomeNode(ev, cur, j);
      ResolveAppends(arena, j, status, node);
      Ok(SetStatus(arena, j, status) + [node])
  }

  /** The arms of the port switch that only append a node: CALL, COND, NEG_ENTER and SWITCH. */
  function Fresh(arena: seq<Node>, n: Node): (r: Result<seq<Node>>)
    ensures r.Ok? && Appended(arena, r.value, n.prev, PortOf(n)) && r.value[|arena|] == n
  {
    AppendAppends(arena, n);
    Ok(arena + [n])
  }

  /**
   * The DISJ arm of the port switch: a first-disjunct node, or a
   * later-disjunct node naming its disjunction's first disjunct.
   */
  function Disjunct(nav: Navigator, arena: seq<Node>, cur: Ref, path: string): (r: Result<seq<Node>>)
    requires Sound(nav) && WellFormed(arena)
    ensures FirstDisjunct(path) ==> r.Ok?
    ensures r.Ok? ==> Appended(arena, r.value, cur, Disj)
  {
    match DisjFirst(nav, arena, cur, path)
    case Err(m) => Err(m)
    case Ok(f) => Fresh(arena, DisjNode(cur, path, f))
  }

  /** The node of a DISJ event, given the first disjunct a later one refers to. */
  function DisjNode(cur: Ref, path: string, first: Ref): (n: Node)
    ensures n.prev == cur && PortOf(n) == Disj
  {
    if FirstDisjunct(path) then FirstDisjNode(cur, path) else LaterDisjNode(cur, path, first)
  }

  /**
   * The arena after the port switch of MR_trace_decl_debug has built the
   * node for an event whose predecessor is `cur`, or the error that stops
   * it.  CALL, SWITCH, COND, NEG_ENTER and first-disjunct events always get
   * a node; foreign-code events never do.
   */
  function Step(nav: Navigator, useSlots: bool, maxDepth: nat, arena: seq<Node>, slots: Slots, cur: Ref, ev: Event)
    : (r: Result<seq<Node>>)
    requires Sound(nav) && WellFormed(arena)
    ensures ev.port in {Call, Switch, Cond, NegEnter} || (ev.port == Disj && FirstDisjunct(ev.path)) ==> r.Ok?
    ensures ev.port == PragmaFirst || ev.port == PragmaLater ==> r.Err?
    ensures r.Ok? ==> Appended(arena, r.value, cur, ev.port)
  {
    match ev.port
    case Call => Fresh(arena, CallNode(cur, MakeAtom(ev.entry), ev.seqno, ev.number, ev.depth == maxDepth, Null))
    case Exit => Interface(nav, useSlots, arena, slots, cur, ev)
    case Redo => Interface(nav, useSlots, arena, slots, cur, ev)
    case Fail => Interface(nav, useSlots, arena, slots, cur, ev)
    case Exception => Interface(nav, useSlots, arena, slots, cur, ev)
    case Cond => Fresh(arena, CondNode(cur, ev.path, Undecided))
    case Then => Outcome(nav, arena, cur, ev)
    case Else => Outcome(nav, arena, cur, ev)
    case NegEnter => Fresh(arena, NegNode(cur, ev.path, Undecided))
    case NegSuccess => Outcome(nav, arena, cur, ev)
    case NegFailure => Outcome(nav, arena, cur, ev)
    case Switch => Fresh(arena, SwitchNode(cur, ev.path))
    case Disj => Disjunct(nav, arena, cur, ev.path)
    case PragmaFirst => Err("MR_trace_decl_debug: foreign language code is not handled (yet)")
    case PragmaLater => Err("MR_trace_decl_debug: foreign language code is not handled (yet)")
  }

  /** The back end's state: its static variables and the tree under construction. */
  class Collector {
    var maxDepth: nat        // MR_edt_max_depth
    var lastEvent: nat       // MR_edt_last_event
    var inside: bool         // MR_edt_inside
    var startSeqno: nat      // MR_edt_start_seqno
    var nodeStore: nat       // MR_trace_node_store
    var current: Ref         // MR_trace_current_node
    var arena: seq<Node>     // the nodes of the tree being collected
    var mode: Mode           // MR_trace_decl_mode
    var enabled: bool        // MR_trace_enabled
    var initialised: bool    // the `done` flag of MR_trace_decl_ensure_init
    var cmd: Cmd             // the tracer's command record
    var slots: Slots         // the reserved stack slots
    const nav: Navigator     // the Mercury-side contour walks
    const useSlots: bool     // MR_USE_DECL_STACK_SLOT

    /** The tree is well formed and the current node belongs to it. */
    ghost predicate Valid()
      reads this
    {
      Sound(nav) && WellFormed(arena) && InArena(arena, current)
    }

    /** The statics before the first collection: all zero. */
    constructor (nav: Navigator, useSlots: bool, cmd: Cmd)
      requires Sound(nav)
      ensures Valid()
      ensures this.nav == nav && this.useSlots == useSlots && this.cmd == cmd
      ensures maxDepth == 0 && lastEvent == 0 && !inside && startSeqno == 0 && nodeStore == 0
      ensures current == Null && arena == [] && mode == Interactive && enabled && !initialised
      ensures slots == map[]
    {
      this.nav := nav;
      this.useSlots := useSlots;
      this.cmd := cmd;
      maxDepth, lastEvent, inside, startSeqno, nodeStore := 0, 0, false, 0, 0;
      current, arena, mode, enabled, initialised := Null, [], Interactive, true, false;
      slots := map[];
    }

    /**
     * MR_trace_find_prev_contour: one step of the store, then the Mercury
     * walk.  Without a current node the search that follows fails at once.
     */
    method PrevContour(r: Ref) returns (start: Ref)
      requires Valid() && InArena(arena, r)
      modifies this`nodeStore
      ensures nodeStore == old(nodeStore) + 1
      ensures start == PrevStart(nav, arena, r) && InArena(arena, start)
    {
      nodeStore := nodeStore + 1;
      start := PrevStart(nav, arena, r);
    }

    /**
     * The search loop shared by the builders: look at `start`, and step
     * left in the contour (MR_trace_step_left_in_contour, one step of the
     * store each) until `probe` accepts a node.
     */
    method SearchLeft(probe: Node -> Probe, start: Ref) returns (res: Result<nat>)
      requires Valid() && InArena(arena, start)
      modifies this`nodeStore
      ensures res == FindLeft(nav, arena, probe, start)
      ensures nodeStore == old(nodeStore) + SearchCost(nav, arena, probe, start)
    {
      var next := start;
      while true
        invariant InArena(arena, next)
        invariant FindLeft(nav, arena, probe, next) == FindLeft(nav, arena, probe, start)
        invariant nodeStore + SearchCost(nav, arena, probe, next)
                  == old(nodeStore) + SearchCost(nav, arena, probe, start)
        decreases if next.At? then next.i + 1 else 0
      {
        if next.Null? {
          return Err("contour walk ran off the root");
        }
        var look := probe(arena[next.i]);
        nodeStore := nodeStore + look.cost;
        if look.hit {
          return Ok(next.i);
        }
        assert Before(nav.stepLeft(arena, next.i), next.i);
        next := nav.stepLeft(arena, next.i);
        nodeStore := nodeStore + 1;
      }
    }

    /** MR_trace_matching_call: the nearest CALL node stepping left in the contour from `r`. */
    method MatchingCall(r: Ref) returns (res: Result<nat>)
      requires Valid() && InArena(arena, r)
      modifies this`nodeStore
      ensures res == FindLeft(nav, arena, CallProbe, r)
      ensures nodeStore == old(nodeStore) + SearchCost(nav, arena, CallProbe, r)
      ensures res.Ok? ==> res.value < |arena| && arena[res.value].CallNode?
    {
      res := SearchLeft(CallProbe, r);
    }

    /** MR_trace_decl_call: a call node whose predecessor is the current node. */
    method BuildCall(ev: Event)
      requires Valid()
      modifies this`arena, this`slots
      ensures Valid()
      ensures arena == old(arena) + [CallNode(current, MakeAtom(ev.entry), ev.seqno, ev.number,
                                              ev.depth == maxDepth, Null)]
      ensures arena[|old(arena)|].atDepthLimit <==> ev.depth == maxDepth
      ensures slots == if useSlots then SetSlot(old(slots), ev.entry, ev.regs, At(|old(arena)|))
                       else old(slots)
    {
      var node := CallNode(current, MakeAtom(ev.entry), ev.seqno, ev.number, ev.depth == maxDepth, Null);
      assert NodeOk(arena + [node], |arena|);
      AppendKeepsWellFormed(arena, node);
      arena := arena + [node];
      if useSlots {
        slots := SetSlot(slots, ev.entry, ev.regs, At(|arena| - 1));
      }
    }

    /**
     * The tail of the exit, redo, fail and exception builders: append the
     * node and make it the call's last interface event.
     */
    method AddInterfaceNode(c: nat, node: Node)
      requires Valid() && c < |arena| && arena[c].CallNode?
      requires IsInterface(node) && node.prior == arena[c].last && node.prev == current
      requires !node.RedoNode? ==> node.call == At(c)
      modifies this`arena
      ensures Valid()
      ensures arena == AddInterface(old(arena), c, node)
      ensures History(arena, c) == [|old(arena)|] + History(old(arena), c)
    {
      AddInterfaceKeepsWellFormed(arena, c, node);
      AddInterfaceExtendsHistory(arena, c, node);
      arena := AddInterface(arena, c, node);
    }

    /**
     * MR_trace_decl_exit: find the call (its reserved slot, or the nearest
     * call in the contour) and chain an exit node onto it.
     */
    method BuildExit(ev: Event) returns (res: Result<nat>)
      requires Valid()
      modifies this`arena, this`nodeStore
      ensures Valid()
      ensures useSlots ==> res == SlotCall(old(arena), GetSlot(slots, ev.entry, ev.regs))
                           && nodeStore == old(nodeStore)
      ensures !useSlots ==> res == FindLeft(nav, old(arena), CallProbe, current)
                            && nodeStore == old(nodeStore) + SearchCost(nav, old(arena), CallProbe, current)
      ensures res.Err? ==> arena == old(arena)
      ensures res.Ok? ==>
                && res.value < |old(arena)| && old(arena)[res.value].CallNode?
                && arena == AddInterface(old(arena), res.value,
                     ExitNode(current, At(res.value), old(arena)[res.value].last, MakeAtom(ev.entry), ev.number))
                && History(arena, res.value) == [|old(arena)|] + History(old(arena), res.value)
    {
      if useSlots {
        res := SlotCall(arena, GetSlot(slots, ev.entry, ev.regs));
      } else {
        res := MatchingCall(current);
      }
      if res.Ok? {
        var c := res.value;
        AddInterfaceNode(c, ExitNode(current, At(c), arena[c].last, MakeAtom(ev.entry), ev.number));
      }
    }

    /** MR_trace_decl_excp: as for an exit, with an exception node. */
    method BuildExcp(ev: Event) returns (res: Result<nat>)
      requires Valid()
      modifies this`arena, this`nodeStore
      ensures Valid()
      ensures useSlots ==> res == SlotCall(old(arena), GetSlot(slots, ev.entry, ev.regs))
                           && nodeStore == old(nodeStore)
      ensures !useSlots ==> res == FindLeft(nav, old(arena), CallProbe, current)
                            && nodeStore == old(nodeStore) + SearchCost(nav, old(arena), CallProbe, current)
      ensures res.Err? ==> arena == old(arena)
      ensures res.Ok? ==>
                && res.value < |old(arena)| && old(arena)[res.value].CallNode?
                && arena == AddInterface(old(arena), res.value,
                     ExcpNode(current, At(res.value), old(arena)[res.value].last, ev.number))
                && History(arena, res.value) == [|old(arena)|] + History(old(arena), res.value)
    {
      if useSlots {
        res := SlotCall(arena, GetSlot(slots, ev.entry, ev.regs));
      } else {
        res := MatchingCall(current);
      }
      if res.Ok? {
        var c := res.value;
        AddInterfaceNode(c, ExcpNode(current, At(c), arena[c].last, ev.number));
      }
    }

    /**
     * MR_trace_decl_redo: without slots, go to the previous contour, search
     * left for the EXIT of the call with the event's sequence number (each
     * sequence-number read is a step of the store), step the store once
     * more and take that exit's call.
     */
    method BuildRedo(ev: Event) returns (res: Result<nat>)
      requires Valid()
      modifies this`arena, this`nodeStore
      ensures Valid()
      ensures res == RedoCall(nav, useSlots, old(arena), slots, current, ev)
      ensures useSlots ==> nodeStore == old(nodeStore)
      ensures !useSlots ==>
                var probe := ExitMatching(old(arena), ev.seqno);
                var start := PrevStart(nav, old(arena), current);
                nodeStore == old(nodeStore) + 1 + SearchCost(nav, old(arena), probe, start)
                               + (if FindLeft(nav, old(arena), probe, start).Ok? then 1 else 0)
      ensures res.Err? ==> arena == old(arena)
      ensures res.Ok? ==>
                && arena == AddInterface(old(arena), res.value, RedoNode(current, old(arena)[res.value].last))
                && History(arena, res.value) == [|old(arena)|] + History(old(arena), res.value)
    {
      if useSlots {
        res := SlotCall(arena, GetSlot(slots, ev.entry, ev.regs));
      } else {
        var start := PrevContour(current);
        var exit := SearchLeft(ExitMatching(arena, ev.seqno), start);
        if exit.Err? {
          return Err(exit.msg);
        }
        nodeStore := nodeStore + 1;
        var e := arena[exit.value];
        assert ExitProbe(arena, ev.seqno, e).hit;
        res := SlotCall(arena, e.call);
        if res.Err? {
          return Err("MR_trace_decl_redo: no matching EXIT");
        }
      }
      if res.Ok? {
        var c := res.value;
        AddInterfaceNode(c, RedoNode(current, arena[c].last));
      }
    }

    /**
     * MR_trace_decl_fail: without slots, the current node itself when it is
     * a CALL node, and otherwise the nearest call in the previous contour.
     */
    method BuildFail(ev: Event) returns (res: Result<nat>)
      requires Valid()
      modifies this`arena, this`nodeStore
      ensures Valid()
      ensures res == FailCall(nav, useSlots, old(arena), slots, current, ev)
      ensures useSlots || current.Null? || old(arena)[current.i].CallNode? ==> nodeStore == old(nodeStore)
      ensures !useSlots && current.At? && !old(arena)[current.i].CallNode? ==>
                nodeStore == old(nodeStore) + 1
                               + SearchCost(nav, old(arena), CallProbe, nav.prevContour(old(arena), current.i))
      ensures res.Err? ==> arena == old(arena)
      ensures res.Ok? ==>
                && arena == AddInterface(old(arena), res.value,
                     FailNode(current, At(res.value), old(arena)[res.value].last, ev.number))
                && History(arena, res.value) == [|old(arena)|] + History(old(arena), res.value)
    {
      if useSlots {
        res := SlotCall(arena, GetSlot(slots, ev.entry, ev.regs));
      } else if current.Null? {
        return Err("contour walk ran off the root");
      } else if arena[current.i].CallNode? {
        res := Ok(current.i);
      } else {
        var start := PrevContour(current);
        res := MatchingCall(start);
      }
      if res.Ok? {
        var c := res.value;
        AddInterfaceNode(c, FailNode(current, At(c), arena[c].last, ev.number));
      }
    }

    /**
     * The builders for COND, NEG_ENTER and SWITCH events, and for the first
     * disjunct of a disjunction: a node carrying the event's goal path (and,
     * for a condition or a negation, an undecided status).
     */
    method AppendNode(node: Node)
      requires Valid() && node.prev == current && !node.CallNode? && !IsInterface(node)
      requires !node.ThenNode? && !node.ElseNode? && !node.NegSuccNode? && !node.NegFailNode?
      requires !node.LaterDisjNode?
      modifies this`arena
      ensures Valid()
      ensures arena == old(arena) + [node]
    {
      assert NodeOk(arena + [node], |arena|);
      AppendKeepsWellFormed(arena, node);
      arena := arena + [node];
    }

    /**
     * Resolve the condition or negation node at position j: set its status,
     * then append the node (then, else, neg_succ or neg_fail) that refers to
     * it.
     */
    method Resolve(j: nat, s: Status, node: Node)
      requires Valid() && j < |arena| && node.prev == current
      requires || ((node.ThenNode? || node.ElseNode?) && arena[j].CondNode? && node.cond == At(j))
               || ((node.NegSuccNode? || node.NegFailNode?) && arena[j].NegNode? && node.neg == At(j))
      modifies this`arena
      ensures Valid()
      ensures arena == SetStatus(old(arena), j, s) + [node]
    {
      SetStatusKeepsWellFormed(arena, j, s);
      arena := SetStatus(arena, j, s);
      assert NodeOk(arena + [node], |arena|);
      AppendKeepsWellFormed(arena, node);
      arena := arena + [node];
    }

    /**
     * MR_trace_decl_then: search the current contour for the COND node of
     * the same if-then-else, mark it succeeded and build a then node.
     */
    method BuildThen(ev: Event) returns (res: Result<nat>)
      requires Valid()
      modifies this`arena, this`nodeStore
      ensures Valid()
      ensures res == FindLeft(nav, old(arena), Matching(Cond, ev.path), current)
      ensures nodeStore == old(nodeStore) + SearchCost(nav, old(arena), Matching(Cond, ev.path), current)
      ensures res.Err? ==> arena == old(arena)
      ensures res.Ok? ==>
                && res.value < |old(arena)| && old(arena)[res.value].CondNode?
                && SameConstruct(ev.path, old(arena)[res.value].path)
                && arena == SetStatus(old(arena), res.value, Succeeded) + [ThenNode(current, At(res.value))]
    {
      res := SearchLeft(Matching(Cond, ev.path), current);
      if res.Ok? {
        assert ConstructProbe(Cond, ev.path, arena[res.value]).hit;
        Resolve(res.value, Succeeded, ThenNode(current, At(res.value)));
      }
    }

    /**
     * MR_trace_decl_else: look at the current node first, then run the same
     * search as for THEN (which looks at the current node again); mark the
     * condition failed and build an else node.  The node found is the one
     * the search alone would find.
     */
    method BuildElse(ev: Event) returns (res: Result<nat>)
      requires Valid()
      modifies this`arena, this`nodeStore
      ensures Valid() && nodeStore >= old(nodeStore)
      ensures res == FindLeft(nav, old(arena), Matching(Cond, ev.path), current)
      ensures current.At? ==>
                var look := ConstructProbe(Cond, ev.path, old(arena)[current.i]);
                nodeStore == old(nodeStore) + look.cost
                  + (if look.hit then 0 else SearchCost(nav, old(arena), Matching(Cond, ev.path), current))
      ensures res.Err? ==> arena == old(arena)
      ensures res.Ok? ==>
                && res.value < |old(arena)| && old(arena)[res.value].CondNode?
                && SameConstruct(ev.path, old(arena)[res.value].path)
                && arena == SetStatus(old(arena), res.value, Failed) + [ElseNode(current, At(res.value))]
    {
      if current.Null? {
        return Err("contour walk ran off the root");
      }
      var look := ConstructProbe(Cond, ev.path, arena[current.i]);
      nodeStore := nodeStore + look.cost;
      if look.hit {
        res := Ok(current.i);
      } else {
        res := SearchLeft(Matching(Cond, ev.path), current);
      }
      if res.Ok? {
        assert ConstructProbe(Cond, ev.path, arena[res.value]).hit;
        Resolve(res.value, Failed, ElseNode(current, At(res.value)));
      }
    }

    /**
     * MR_trace_decl_neg_success: the current node if it is the matching
     * NEG_ENTER node, otherwise the search; mark it succeeded and build a
     * neg_succ node.
     */
    method BuildNegSuccess(ev: Event) returns (res: Result<nat>)
      requires Valid()
      modifies this`arena, this`nodeStore
      ensures Valid() && nodeStore >= old(nodeStore)
      ensures res == FindLeft(nav, old(arena), Matching(NegEnter, ev.path), current)
      ensures current.At? ==>
                var look := ConstructProbe(NegEnter, ev.path, old(arena)[current.i]);
                nodeStore == old(nodeStore) + look.cost
                  + (if look.hit then 0 else SearchCost(nav, old(arena), Matching(NegEnter, ev.path), current))
      ensures res.Err? ==> arena == old(arena)
      ensures res.Ok? ==>
                && res.value < |old(arena)| && old(arena)[res.value].NegNode?
                && SameConstruct(ev.path, old(arena)[res.value].path)
                && arena == SetStatus(old(arena), res.value, Succeeded) + [NegSuccNode(current, At(res.value))]
    {
      if current.Null? {
        return Err("contour walk ran off the root");
      }
      var look := ConstructProbe(NegEnter, ev.path, arena[current.i]);
      nodeStore := nodeStore + look.cost;
      if look.hit {
        res := Ok(current.i);
      } else {
        res := SearchLeft(Matching(NegEnter, ev.path), current);
      }
      if res.Ok? {
        assert ConstructProbe(NegEnter, ev.path, arena[res.value]).hit;
        Resolve(res.value, Succeeded, NegSuccNode(current, At(res.value)));
      }
    }

    /**
     * MR_trace_decl_neg_failure: search the current contour for the
     * matching NEG_ENTER node, mark it failed and build a neg_fail node.
     */
    method BuildNegFailure(ev: Event) returns (res: Result<nat>)
      requires Valid()
      modifies this`arena, this`nodeStore
      ensures Valid()
      ensures res == FindLeft(nav, old(arena), Matching(NegEnter, ev.path), current)
      ensures nodeStore == old(nodeStore) + SearchCost(nav, old(arena), Matching(NegEnter, ev.path), current)
      ensures res.Err? ==> arena == old(arena)
      ensures res.Ok? ==>
                && res.value < |old(arena)| && old(arena)[res.value].NegNode?
                && SameConstruct(ev.path, old(arena)[res.value].path)
                && arena == SetStatus(old(arena), res.value, Failed) + [NegFailNode(current, At(res.value))]
    {
      res := SearchLeft(Matching(NegEnter, ev.path), current);
      if res.Ok? {
        assert ConstructProbe(NegEnter, ev.path, arena[res.value]).hit;
        Resolve(res.value, Failed, NegFailNode(current, At(res.value)));
      }
    }

    /**
     * MR_trace_decl_disj: a first-disjunct node when the path ends in "d1;";
     * otherwise go to the previous contour, search left for a DISJ node of
     * the same disjunction, and build a later-disjunct node that refers to
     * that disjunction's first disjunct.
     */
    method BuildDisj(ev: Event) returns (res: Result<Ref>)
      requires Valid()
      modifies this`arena, this`nodeStore
      ensures Valid()
      ensures res == DisjFirst(nav, old(arena), current, ev.path)
      ensures FirstDisjunct(ev.path) ==>
                arena == old(arena) + [FirstDisjNode(current, ev.path)] && nodeStore == old(nodeStore)
      ensures !FirstDisjunct(ev.path) ==>
                nodeStore == old(nodeStore) + 1
                               + SearchCost(nav, old(arena), Matching(Disj, ev.path), PrevStart(nav, old(arena), current))
      ensures res.Err? ==> arena == old(arena)
      ensures !FirstDisjunct(ev.path) && res.Ok? ==> arena == old(arena) + [LaterDisjNode(current, ev.path, res.value)]
    {
      if FirstDisjunct(ev.path) {
        AppendNode(FirstDisjNode(current, ev.path));
        return Ok(Null);
      }
      var start := PrevContour(current);
      var found := SearchLeft(Matching(Disj, ev.path), start);
      if found.Err? {
        return Err(found.msg);
      }
      assert ConstructProbe(Disj, ev.path, arena[found.value]).hit;
      var first := FirstOf(arena, found.value);
      var node := LaterDisjNode(current, ev.path, first);
      assert NodeOk(arena + [node], |arena|);
      AppendKeepsWellFormed(arena, node);
      arena := arena + [node];
      res := Ok(first);
    }

    /** The EXIT, REDO, FAIL and EXCEPTION arms of the port switch: each adds to a call's history. */
    method RecordInterface(ev: Event) returns (err: Option<string>)
      requires ev.port in {Exit, Redo, Fail, Exception}
      requires Valid()
      modifies this`arena, this`nodeStore
      ensures Valid() && nodeStore >= old(nodeStore)
      ensures var s := Step(nav, useSlots, maxDepth, old(arena), slots, current, ev);
                && (err.None? <==> s.Ok?)
                && (s.Ok? ==> arena == s.value)
                && (s.Err? ==> err == Some(s.msg) && arena == old(arena))
    {
      assert Step(nav, useSlots, maxDepth, arena, slots, current, ev) == Interface(nav, useSlots, arena, slots, current, ev);
      match ev.port {
        case Exit =>
          var r := BuildExit(ev);
          if r.Err? { return Some(r.msg); }
        case Redo =>
          var r := BuildRedo(ev);
          if r.Err? { return Some(r.msg); }
        case Fail =>
          var r := BuildFail(ev);
          if r.Err? { return Some(r.msg); }
        case Exception =>
          var r := BuildExcp(ev);
          if r.Err? { return Some(r.msg); }
      }
      return None;
    }

    /** The THEN, ELSE, NEG_SUCCESS and NEG_FAILURE arms: each resolves an earlier node. */
    method RecordOutcome(ev: Event) returns (err: Option<string>)
      requires ev.port in {Then, Else, NegSuccess, NegFailure}
      requires Valid()
      modifies this`arena, this`nodeStore
      ensures Valid() && nodeStore >= old(nodeStore)
      ensures var s := Step(nav, useSlots, maxDepth, old(arena), slots, current, ev);
                && (err.None? <==> s.Ok?)
                && (s.Ok? ==> arena == s.value)
                && (s.Err? ==> err == Some(s.msg) && arena == old(arena))
    {
      assert Step(nav, useSlots, maxDepth, arena, slots, current, ev) == Outcome(nav, arena, current, ev);
      match ev.port {
        case Then =>
          var r := BuildThen(ev);
          if r.Err? { return Some(r.msg); }
        case Else =>
          var r := BuildElse(ev);
          if r.Err? { return Some(r.msg); }
        case NegSuccess =>
          var r := BuildNegSuccess(ev);
          if r.Err? { return Some(r.msg); }
        case NegFailure =>
          var r := BuildNegFailure(ev);
          if r.Err? { return Some(r.msg); }
      }
      return None;
    }

    /** The SWITCH, COND, NEG_ENTER and DISJ arms: each opens a construct or a branch of one. */
    method RecordConstruct(ev: Event) returns (err: Option<string>)
      requires ev.port in {Switch, Cond, NegEnter, Disj}
      requires Valid()
      modifies this`arena, this`nodeStore
      ensures Valid() && nodeStore >= old(nodeStore)
      ensures var s := Step(nav, useSlots, maxDepth, old(arena), slots, current, ev);
                && (err.None? <==> s.Ok?)
                && (s.Ok? ==> arena == s.value)
                && (s.Err? ==> err == Some(s.msg) && arena == old(arena))
    {
      match ev.port {
        case Switch =>
          assert Step(nav, useSlots, maxDepth, arena, slots, current, ev) == Fresh(arena, SwitchNode(current, ev.path));
          AppendNode(SwitchNode(current, ev.path));
        case Cond =>
          assert Step(nav, useSlots, maxDepth, arena, slots, current, ev) == Fresh(arena, CondNode(current, ev.path, Undecided));
          AppendNode(CondNode(current, ev.path, Undecided));
        case NegEnter =>
          assert Step(nav, useSlots, maxDepth, arena, slots, current, ev) == Fresh(arena, NegNode(current, ev.path, Undecided));
          AppendNode(NegNode(current, ev.path, Undecided));
        case Disj =>
          assert Step(nav, useSlots, maxDepth, arena, slots, current, ev) == Disjunct(nav, arena, current, ev.path);
          var r := BuildDisj(ev);
          if r.Err? { return Some(r.msg); }
      }
      return None;
    }

    /**
     * The port switch of MR_trace_decl_debug: build the node for an event,
     * its predecessor the current node.  The arena afterwards is the one
     * `Step` gives, and an error leaves it as it was.
     */
    method BuildNode(ev: Event) returns (err: Option<string>)
      requires Valid()
      modifies this`arena, this`nodeStore, this`slots
      ensures Valid() && nodeStore >= old(nodeStore)
      ensures var s := Step(nav, useSlots, maxDepth, old(arena), old(slots), current, ev);
                && (err.None? <==> s.Ok?)
                && (s.Ok? ==> arena == s.value)
                && (s.Err? ==> err == Some(s.msg) && arena == old(arena))
      ensures slots == if useSlots && ev.port == Call then SetSlot(old(slots), ev.entry, ev.regs, At(|old(arena)|))
                       else old(slots)
    {
      if ev.port == PragmaFirst || ev.port == PragmaLater {
        return Some("MR_trace_decl_debug: foreign language code is not handled (yet)");
      } else if ev.port == Call {
        assert Step(nav, useSlots, maxDepth, arena, slots, current, ev)
            == Fresh(arena, CallNode(current, MakeAtom(ev.entry), ev.seqno, ev.number, ev.depth == maxDepth, Null));
        BuildCall(ev);
        err := None;
      } else if ev.port in {Exit, Redo, Fail, Exception} {
        err := RecordInterface(ev);
      } else if ev.port in {Then, Else, NegSuccess, NegFailure} {
        err := RecordOutcome(ev);
      } else {
        err := RecordConstruct(ev);
      }
    }

    /**
     * Record an accepted event: build its node and make that the current
     * node.  CALL, SWITCH, COND, NEG_ENTER and first-disjunct events always
     * get one; foreign-code events are fatal.
     */
    method Record(ev: Event) returns (err: Option<string>)
      requires Valid()
      modifies this`arena, this`nodeStore, this`slots, this`current
      ensures Valid() && nodeStore >= old(nodeStore)
      ensures var s := Step(nav, useSlots, maxDepth, old(arena), old(slots), old(current), ev);
                && (err.None? <==> s.Ok?)
                && (s.Ok? ==> arena == s.value && current == At(|old(arena)|))
                && (s.Err? ==> err == Some(s.msg) && arena == old(arena) && current == old(current))
      ensures slots == if useSlots && ev.port == Call then SetSlot(old(slots), ev.entry, ev.regs, At(|old(arena)|))
                       else old(slots)
      ensures ev.port in {Call, Switch, Cond, NegEnter} || (ev.port == Disj && FirstDisjunct(ev.path)) ==> err.None?
      ensures ev.port == PragmaFirst || ev.port == PragmaLater ==> err.Some?
      ensures err.None? ==> Appended(old(arena), arena, old(current), ev.port)
    {
      var n := |arena|;
      err := BuildNode(ev);
      if err.None? {
        current := At(n);
      }
    }

    // -------------------------------------------------------------------
    // Starting, restarting and ending a collection

    /**
     * MR_trace_start_collecting: retry to a point before the topmost call;
     * if that works, make (`event`, `seqno`, `maxdepth`) the new window,
     * start a fresh tree and single-step through every event.  The node
     * counter is not reset.  If the retry fails nothing changes.
     */
    method StartCollecting(event: nat, seqno: nat, maxdepth: nat, retry: Retry) returns (msg: Option<string>, jump: nat)
      requires Valid()
      modifies this`lastEvent, this`inside, this`startSeqno, this`maxDepth, this`current, this`arena
      modifies this`cmd, this`enabled
      ensures Valid()
      ensures retry.RetryFailed? ==> msg == Some(retry.msg) && unchanged(this)
      ensures retry.Retried? ==>
                && msg.None? && jump == retry.jump
                && lastEvent == event && !inside && startSeqno == seqno && maxDepth == maxdepth
                && current == Null && arena == [] && cmd == GotoCmd(0) && enabled
    {
      if retry.RetryFailed? {
        return Some(retry.msg), 0;
      }
      lastEvent, inside, startSeqno, maxDepth := event, false, seqno, maxdepth;
      current, arena := Null, [];
      cmd := GotoCmd(0);
      enabled := true;
      return None, retry.jump;
    }

    /**
     * MR_trace_restart_decl_debug: collect again from the subtree the front
     * end asked for, one depth step deeper.  If the retry fails, give up and
     * return to the procedural debugger.
     */
    method RestartDeclDebug(event: nat, seqno: nat, retry: Retry) returns (act: Action)
      requires Valid()
      modifies this`lastEvent, this`inside, this`startSeqno, this`maxDepth, this`current, this`arena
      modifies this`cmd, this`enabled, this`mode
      ensures Valid()
      ensures retry.Retried? ==>
                && act == JumpTo(retry.jump) && mode == old(mode)
                && lastEvent == event && !inside && startSeqno == seqno && maxDepth == old(maxDepth) + DepthStep
                && current == Null && arena == [] && cmd == GotoCmd(0) && enabled
      ensures retry.RetryFailed? ==>
                && act == EnterDebugger && mode == Interactive && enabled
                && lastEvent == old(lastEvent) && inside == old(inside) && startSeqno == old(startSeqno)
                && maxDepth == old(maxDepth) && current == old(current) && arena == old(arena) && cmd == old(cmd)
    {
      var msg, jump := StartCollecting(event, seqno, maxDepth + DepthStep, retry);
      if msg.Some? {
        mode := Interactive;
        enabled := true;
        return EnterDebugger;
      }
      return JumpTo(jump);
    }

    /**
     * MR_decl_handle_bug_found: retry, then go (silently, strictly) to the
     * bug event in the procedural debugger.  Either way the mode is
     * interactive again afterwards.
     */
    method HandleBugFound(bugEvent: nat, retry: Retry) returns (act: Action)
      modifies this`cmd, this`mode, this`enabled
      ensures mode == Interactive && enabled
      ensures retry.Retried? ==> act == JumpTo(retry.jump) && cmd == GotoCmd(bugEvent)
      ensures retry.RetryFailed? ==> act == EnterDebugger && cmd == old(cmd)
    {
      if retry.RetryFailed? {
        mode := Interactive;
        enabled := true;
        return EnterDebugger;
      }
      cmd := GotoCmd(bugEvent);
      mode := Interactive;
      enabled := true;
      return JumpTo(retry.jump);
    }

    /**
     * MR_decl_diagnosis, after the front end has answered: a bug takes
     * precedence over a request for a subtree; with neither, return to the
     * procedural debugger at the current event.
     */
    method Diagnosis(response: Response, retry: Retry) returns (act: Action)
      requires Valid()
      modifies this`lastEvent, this`inside, this`startSeqno, this`maxDepth, this`current, this`arena
      modifies this`cmd, this`enabled, this`mode
      ensures Valid()
      ensures enabled
      ensures response.bugEvent.None? && response.subtree.Some? && retry.Retried? ==>
                && act == JumpTo(retry.jump) && mode == old(mode) && cmd == GotoCmd(0)
                && lastEvent == response.subtree.value.finalEvent && startSeqno == response.subtree.value.seqno
                && maxDepth == old(maxDepth) + DepthStep && !inside && current == Null && arena == []
      ensures !(response.bugEvent.None? && response.subtree.Some? && retry.Retried?) ==>
                && mode == Interactive && arena == old(arena) && current == old(current)
                && lastEvent == old(lastEvent) && startSeqno == old(startSeqno)
                && maxDepth == old(maxDepth) && inside == old(inside)
                && act == (if response.bugEvent.Some? && retry.Retried? then JumpTo(retry.jump) else EnterDebugger)
                && cmd == (if response.bugEvent.Some? && retry.Retried? then GotoCmd(response.bugEvent.value)
                           else old(cmd))
    {
      if response.bugEvent.Some? {
        act := HandleBugFound(response.bugEvent.value, retry);
        return;
      }
      if response.subtree.Some? {
        act := RestartDeclDebug(response.subtree.value.finalEvent, response.subtree.value.seqno, retry);
        return;
      }
      mode := Interactive;
      enabled := true;
      return EnterDebugger;
    }

    /**
     * The filters at the head of MR_trace_decl_debug.  The verdict is the one
     * `Classify` gives; the window flag is updated once the depth filter is
     * passed, so also for events the later filters drop; a missed final event
     * leaves declarative debugging.
     */
    method Admit(ev: Event) returns (v: Verdict)
      modifies this`inside, this`mode
      ensures v == Classify(old(lastEvent), old(maxDepth), old(inside), old(startSeqno), useSlots, ev)
      ensures mode == if v == MissedFinal then Interactive else old(mode)
      ensures inside == if v in {MissedFinal, NoExecTrace, TooDeep, Outside} then old(inside)
                        else InsideAfter(old(inside), startSeqno, ev)
    {
      if ev.number > lastEvent {
        mode := Interactive;
        return MissedFinal;
      }
      if !ev.entry.hasExecTrace {
        return NoExecTrace;
      }
      if ev.depth > maxDepth {
        return TooDeep;
      }
      if inside {
        if ev.seqno == startSeqno && IsFinal(ev.port) {
          inside := false;
        }
      } else if ev.seqno == startSeqno {
        inside := true;
      } else {
        return Outside;
      }
      if ev.entry.compilerGenerated {
        return CompilerGenerated;
      }
      if useSlots && ev.entry.declSlot < 1 {
        return NoSlot;
      }
      return Accepted;
    }

    /**
     * The tail of MR_trace_decl_debug for an event that passed the filters:
     * build its node with tracing switched off; at the last event of the
     * window hand the tree to the front end (or, in test mode, save it)
     * and return to the procedural debugger, otherwise switch tracing back
     * on and carry on.
     */
    method Accept(ev: Event, response: Response, retry: Retry) returns (act: Action)
      requires Valid() && ev.number <= lastEvent
      modifies this`lastEvent, this`inside, this`startSeqno, this`maxDepth, this`current, this`arena
      modifies this`cmd, this`enabled, this`mode, this`nodeStore, this`slots
      ensures Valid() && nodeStore >= old(nodeStore)
      ensures slots == if useSlots && ev.port == Call then SetSlot(old(slots), ev.entry, ev.regs, At(|old(arena)|))
                       else old(slots)
      ensures var s := Step(nav, useSlots, old(maxDepth), old(arena), old(slots), old(current), ev);
              var last := ev.number == old(lastEvent);
        && (act.Fatal? <==> s.Err? || (last && old(mode) == Interactive))
        && (act.Fatal? ==> !enabled)
        && (s.Err? ==> arena == old(arena) && current == old(current))
        && (s.Ok? && !last ==> act == Proceed && enabled)
        && (s.Ok? && last && old(mode) == DeclDebugTest ==> act == EnterDebugger && !enabled)
        && (!(s.Ok? && last && old(mode) == DeclDebug) ==>
              && (s.Ok? ==> arena == s.value && current == At(|old(arena)|))
              && mode == (if s.Ok? && last then Interactive else old(mode))
              && inside == old(inside) && cmd == old(cmd) && lastEvent == old(lastEvent)
              && startSeqno == old(startSeqno) && maxDepth == old(maxDepth))
      ensures var s := Step(nav, useSlots, old(maxDepth), old(arena), old(slots), old(current), ev);
              var restart := response.bugEvent.None? && response.subtree.Some? && retry.Retried?;
              s.Ok? && ev.number == old(lastEvent) && old(mode) == DeclDebug ==>
        && enabled
        && (restart ==>
              && act == JumpTo(retry.jump) && mode == DeclDebug && cmd == GotoCmd(0)
              && lastEvent == response.subtree.value.finalEvent && startSeqno == response.subtree.value.seqno
              && maxDepth == old(maxDepth) + DepthStep && !inside && current == Null && arena == [])
        && (!restart ==>
              && mode == Interactive && arena == s.value && current == At(|old(arena)|)
              && lastEvent == old(lastEvent) && startSeqno == old(startSeqno)
              && maxDepth == old(maxDepth) && inside == old(inside)
              && act == (if response.bugEvent.Some? && retry.Retried? then JumpTo(retry.jump) else EnterDebugger)
              && cmd == (if response.bugEvent.Some? && retry.Retried? then GotoCmd(response.bugEvent.value)
                         else old(cmd)))
    {
      enabled := false;
      var err := Record(ev);
      if err.Some? {
        return Fatal(err.value);
      }
      if ev.number == lastEvent {
        match mode {
          case DeclDebug =>
            act := Diagnosis(response, retry);
            return;
          case DeclDebugTest =>
          case Interactive =>
            return Fatal("MR_trace_decl_debug: unexpected mode");
        }
        mode := Interactive;
        return EnterDebugger;
      }
      enabled := true;
      return Proceed;
    }

    /**
     * MR_trace_decl_debug: filter the event, and if it gets through record
     * it.  `response` is what the front end would answer and `retry` what
     * the engine's retry would return, should either be needed.
     */
    method TraceEvent(ev: Event, response: Response, retry: Retry) returns (act: Action)
      requires Valid()
      modifies this`lastEvent, this`inside, this`startSeqno, this`maxDepth, this`current, this`arena
      modifies this`cmd, this`enabled, this`mode, this`nodeStore, this`slots
      ensures Valid() && nodeStore >= old(nodeStore)
      ensures var v := Classify(old(lastEvent), old(maxDepth), old(inside), old(startSeqno), useSlots, ev);
        && (v != Accepted ==>
              && arena == old(arena) && current == old(current) && nodeStore == old(nodeStore)
              && slots == old(slots) && cmd == old(cmd) && enabled == old(enabled) && lastEvent == old(lastEvent)
              && maxDepth == old(maxDepth) && startSeqno == old(startSeqno))
        && (v == MissedFinal ==> act == EnterDebugger && mode == Interactive && inside == old(inside))
        && (v == NoExecTrace ==> act.Fatal? && mode == old(mode) && inside == old(inside))
        && (v == TooDeep || v == Outside ==> act == Proceed && mode == old(mode) && inside == old(inside))
        && (v == CompilerGenerated || v == NoSlot ==>
              act == Proceed && mode == old(mode) && inside == InsideAfter(old(inside), old(startSeqno), ev))
      ensures Classify(old(lastEvent), old(maxDepth), old(inside), old(startSeqno), useSlots, ev) == Accepted ==>
                slots == if useSlots && ev.port == Call then SetSlot(old(slots), ev.entry, ev.regs, At(|old(arena)|))
                         else old(slots)
      ensures var v := Classify(old(lastEvent), old(maxDepth), old(inside), old(startSeqno), useSlots, ev);
              var s := Step(nav, useSlots, old(maxDepth), old(arena), old(slots), old(current), ev);
              var last := ev.number == old(lastEvent);
              v == Accepted ==>
        && (act.Fatal? <==> s.Err? || (last && old(mode) == Interactive))
        && (act.Fatal? ==> !enabled)
        && (s.Err? ==> arena == old(arena) && current == old(current))
        && (s.Ok? && !last ==> act == Proceed && enabled)
        && (s.Ok? && last && old(mode) == DeclDebugTest ==> act == EnterDebugger && !enabled)
        && (!(s.Ok? && last && old(mode) == DeclDebug) ==>
              && (s.Ok? ==> arena == s.value && current == At(|old(arena)|))
              && mode == (if s.Ok? && last then Interactive else old(mode))
              && inside == InsideAfter(old(inside), old(startSeqno), ev) && cmd == old(cmd)
              && lastEvent == old(lastEvent) && startSeqno == old(startSeqno) && maxDepth == old(maxDepth))
      ensures var v := Classify(old(lastEvent), old(maxDepth), old(inside), old(startSeqno), useSlots, ev);
              var s := Step(nav, useSlots, old(maxDepth), old(arena), old(slots), old(current), ev);
              var restart := response.bugEvent.None? && response.subtree.Some? && retry.Retried?;
              v == Accepted && s.Ok? && ev.number == old(lastEvent) && old(mode) == DeclDebug ==>
        && enabled
        && (restart ==>
              && act == JumpTo(retry.jump) && mode == DeclDebug && cmd == GotoCmd(0)
              && lastEvent == response.subtree.value.finalEvent && startSeqno == response.subtree.value.seqno
              && maxDepth == old(maxDepth) + DepthStep && !inside && current == Null && arena == [])
        && (!restart ==>
              && mode == Interactive && arena == s.value && current == At(|old(arena)|)
              && lastEvent == old(lastEvent) && startSeqno == old(startSeqno) && maxDepth == old(maxDepth)
              && inside == InsideAfter(old(inside), old(startSeqno), ev)
              && act == (if response.bugEvent.Some? && retry.Retried? then JumpTo(retry.jump) else EnterDebugger)
              && cmd == (if response.bugEvent.Some? && retry.Retried? then GotoCmd(response.bugEvent.value)
                         else old(cmd)))
    {
      var v := Admit(ev);
      match v {
        case MissedFinal => act := EnterDebugger;
        case NoExecTrace => act := Fatal("layout has no execution tracing");
        case TooDeep => act := Proceed;
        case Outside => act := Proceed;
        case CompilerGenerated => act := Proceed;
        case NoSlot => act := Proceed;
        case Accepted => act := Accept(ev, response, retry);
      }
    }

    /**
     * MR_trace_decl_ensure_init: on the first call only, zero the node
     * counter (and set up the front end, which is not part of this model).
     */
    method EnsureInit()
      modifies this`nodeStore, this`initialised
      ensures initialised
      ensures nodeStore == if old(initialised) then old(nodeStore) else 0
    {
      if !initialised {
        nodeStore := 0;
        initialised := true;
      }
    }

    /**
     * MR_trace_start_decl_debug: refuse procedures without execution
     * tracing, compiler-generated ones and (with reserved slots) ones
     * without a slot; in test mode refuse when the output file does not
     * open.  Otherwise enter the requested mode and start collecting from
     * the current event, `DepthStep` levels deep.  `outfile` is the test
     * file's name (None: normal mode) and `fileOpens` whether it opened.
     */
    method StartDeclDebug(outfile: Option<string>, fileOpens: bool, ev: Event, retry: Retry) returns (ok: bool, jump: nat)
      requires Valid()
      modifies this`lastEvent, this`inside, this`startSeqno, this`maxDepth, this`current, this`arena
      modifies this`cmd, this`enabled, this`mode, this`nodeStore, this`initialised
      ensures Valid()
      ensures (|| !ev.entry.hasExecTrace || ev.entry.compilerGenerated || (useSlots && ev.entry.declSlot < 1)
               || (outfile.Some? && !fileOpens)) ==> !ok && unchanged(this)
      ensures ok <==>
                && ev.entry.hasExecTrace && !ev.entry.compilerGenerated && !(useSlots && ev.entry.declSlot < 1)
                && (outfile.None? || fileOpens) && retry.Retried?
      ensures (&& ev.entry.hasExecTrace && !ev.entry.compilerGenerated && !(useSlots && ev.entry.declSlot < 1)
               && (outfile.None? || fileOpens) && retry.RetryFailed?) ==>
                && mode == (if outfile.None? then DeclDebug else DeclDebugTest) && initialised
                && nodeStore == (if old(initialised) then old(nodeStore) else 0)
                && lastEvent == old(lastEvent) && startSeqno == old(startSeqno) && inside == old(inside)
                && maxDepth == old(maxDepth) && current == old(current) && arena == old(arena)
                && cmd == old(cmd) && enabled == old(enabled)
      ensures ok ==>
                && mode == (if outfile.None? then DeclDebug else DeclDebugTest) && initialised
                && nodeStore == (if old(initialised) then old(nodeStore) else 0)
                && jump == retry.jump && lastEvent == ev.number && startSeqno == ev.seqno && !inside
                && maxDepth == ev.depth + DepthStep && current == Null && arena == [] && cmd == GotoCmd(0) && enabled
    {
      if !ev.entry.hasExecTrace || ev.entry.compilerGenerated {
        return false, 0;
      }
      if useSlots && ev.entry.declSlot < 1 {
        return false, 0;
      }
      if outfile.None? {
        mode := DeclDebug;
      } else if !fileOpens {
        return false, 0;
      } else {
        mode := DeclDebugTest;
      }
      EnsureInit();
      var msg;
      msg, jump := StartCollecting(ev.number, ev.seqno, ev.depth + DepthStep, retry);
      return msg.None?, jump;
    }
  }
}

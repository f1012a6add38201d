/**
 * The annotated execution tree (AET) that the declarative debugger's back
 * end builds from trace events.
 *
 * The Mercury side keeps the nodes in its own store and hands the C side
 * opaque node identifiers.  Here the store is an append-only arena: a
 * sequence of node records, a node identifier is a position in it, and a
 * NULL identifier is `Null`.  The two fields the back end writes after a
 * node exists (a call's last interface event, a condition's or a
 * negation's status) are updated by writing a new record at the same
 * position.
 */
module Aet {
  import opened GoalPath

  datatype Option<T> = None | Some(value: T)

  datatype Result<T> = Ok(value: T) | Err(msg: string)

  /** The kinds of trace event. */
  datatype Port =
    | Call | Exit | Redo | Fail | Exception
    | Cond | Then | Else
    | NegEnter | NegSuccess | NegFailure
    | Disj | Switch
    | PragmaFirst | PragmaLater

  /**
   * MR_port_is_final: the ports at which a call is left for good.  The ports
   * that enter or re-enter a call are not among them.
   */
  predicate IsFinal(p: Port): (b: bool)
    ensures p == Call || p == Redo ==> !b
  {
    p == Exit || p == Fail || p == Exception
  }

  datatype Status = Undecided | Succeeded | Failed

  /** A node identifier: NULL, or the position of a node in the arena. */
  datatype Ref = Null | At(i: nat)

  datatype PredOrFunc = Pred | Func

  /** The procedure identity recorded in an atom (argument values are not modelled). */
  datatype Atom = Atom(kind: PredOrFunc, name: string, arity: nat)

  /**
   * One node per port.  `prev` is the node that was current when this one
   * was built; `last` is a call's most recent interface event; `prior` is
   * the call's `last` at the time an interface node was built.
   */
  datatype Node =
    | CallNode(prev: Ref, atom: Atom, seqno: nat, event: nat, atDepthLimit: bool, last: Ref)
    | ExitNode(prev: Ref, call: Ref, prior: Ref, atom: Atom, event: nat)
    | RedoNode(prev: Ref, prior: Ref)
    | FailNode(prev: Ref, call: Ref, prior: Ref, event: nat)
    | ExcpNode(prev: Ref, call: Ref, prior: Ref, event: nat)
    | CondNode(prev: Ref, path: string, status: Status)
    | ThenNode(prev: Ref, cond: Ref)
    | ElseNode(prev: Ref, cond: Ref)
    | NegNode(prev: Ref, path: string, status: Status)
    | NegSuccNode(prev: Ref, neg: Ref)
    | NegFailNode(prev: Ref, neg: Ref)
    | SwitchNode(prev: Ref, path: string)
    | FirstDisjNode(prev: Ref, path: string)
    | LaterDisjNode(prev: Ref, path: string, first: Ref)

  /** Exit, redo, fail and exception nodes: the events in a call's interface chain. */
  predicate IsInterface(n: Node) {
    n.ExitNode? || n.RedoNode? || n.FailNode? || n.ExcpNode?
  }

  /** The nodes that carry a goal path. */
  predicate HasPath(n: Node) {
    n.CondNode? || n.NegNode? || n.SwitchNode? || n.FirstDisjNode? || n.LaterDisjNode?
  }

  /**
   * MR_DD_trace_node_port.  Both kinds of disjunct node answer DISJ, and no
   * node answers a foreign-code port.
   */
  function PortOf(n: Node): (p: Port)
    ensures p != PragmaFirst && p != PragmaLater
    ensures HasPath(n) <==> p == Cond || p == NegEnter || p == Switch || p == Disj
    ensures IsInterface(n) <==> p == Exit || p == Redo || p == Fail || p == Exception
  {
    match n
    case CallNode(_, _, _, _, _, _) => Call
    case ExitNode(_, _, _, _, _) => Exit
    case RedoNode(_, _) => Redo
    case FailNode(_, _, _, _) => Fail
    case ExcpNode(_, _, _, _) => Exception
    case CondNode(_, _, _) => Cond
    case ThenNode(_, _) => Then
    case ElseNode(_, _) => Else
    case NegNode(_, _, _) => NegEnter
    case NegSuccNode(_, _) => NegSuccess
    case NegFailNode(_, _) => NegFailure
    case SwitchNode(_, _) => Switch
    case FirstDisjNode(_, _) => Disj
    case LaterDisjNode(_, _, _) => Disj
  }

  // ---------------------------------------------------------------------
  // Well-formed arenas

  /** `r` is NULL or names a node strictly before position `i`. */
  predicate Before(r: Ref, i: nat) {
    r.Null? || r.i < i
  }

  /** `r` names a node of `arena` strictly before position `i`. */
  predicate Earlier(arena: seq<Node>, r: Ref, i: nat) {
    r.At? && r.i < i && r.i < |arena|
  }

  /** The call's last interface event is NULL or a later interface node. */
  predicate LastOk(arena: seq<Node>, last: Ref, i: nat) {
    last.Null? || (i < last.i < |arena| && IsInterface(arena[last.i]))
  }

  /** An interface node's prior event is NULL or an earlier interface node. */
  predicate PriorOk(arena: seq<Node>, prior: Ref, i: nat) {
    prior.Null? || (Earlier(arena, prior, i) && IsInterface(arena[prior.i]))
  }

  /** The links of the node at position `i` point where the back end puts them. */
  predicate NodeOk(arena: seq<Node>, i: nat)
    requires i < |arena|
  {
    var n := arena[i];
    && Before(n.prev, i)
    && match n
       case CallNode(_, _, _, _, _, last) => LastOk(arena, last, i)
       case ExitNode(_, call, prior, _, _) =>
         Earlier(arena, call, i) && arena[call.i].CallNode? && PriorOk(arena, prior, i)
       case RedoNode(_, prior) => PriorOk(arena, prior, i)
       case FailNode(_, call, prior, _) =>
         Earlier(arena, call, i) && arena[call.i].CallNode? && PriorOk(arena, prior, i)
       case ExcpNode(_, call, prior, _) =>
         Earlier(arena, call, i) && arena[call.i].CallNode? && PriorOk(arena, prior, i)
       case ThenNode(_, cond) => Earlier(arena, cond, i) && arena[cond.i].CondNode?
       case ElseNode(_, cond) => Earlier(arena, cond, i) && arena[cond.i].CondNode?
       case NegSuccNode(_, neg) => Earlier(arena, neg, i) && arena[neg.i].NegNode?
       case NegFailNode(_, neg) => Earlier(arena, neg, i) && arena[neg.i].NegNode?
       case LaterDisjNode(_, _, first) => Earlier(arena, first, i) && arena[first.i].FirstDisjNode?
       case _ => true
  }

  /** Every node of the arena is well linked. */
  predicate WellFormed(arena: seq<Node>) {
    forall i :: 0 <= i < |arena| ==> NodeOk(arena, i)
  }

  /** A reference that is NULL or names a node of the arena. */
  predicate InArena(arena: seq<Node>, r: Ref) {
    r.Null? || r.i < |arena|
  }

  // ---------------------------------------------------------------------
  // The interface chain of a call

  /**
   * The interface events reached from `r` by following `prior` links,
   * newest first.  Positions strictly decrease along the chain, so it has
   * no cycle.
   */
  function Chain(arena: seq<Node>, r: Ref): (c: seq<nat>)
    ensures |c| > 0 ==> r.At? && c[0] == r.i
    ensures forall k :: 0 <= k < |c| ==> c[k] < |arena| && IsInterface(arena[c[k]])
    ensures forall k :: 0 < k < |c| ==> c[k] < c[k - 1]
    decreases if r.At? then r.i + 1 else 0
  {
    if r.At? && r.i < |arena| && IsInterface(arena[r.i]) && Before(arena[r.i].prior, r.i) then
      [r.i] + Chain(arena, arena[r.i].prior)
    else []
  }

  /** The exits, redos, fails and exceptions of the call at position c, newest first. */
  function History(arena: seq<Node>, c: nat): seq<nat>
    requires c < |arena| && arena[c].CallNode?
  {
    Chain(arena, arena[c].last)
  }

  /** MR_DD_call_node_set_last_interface. */
  function SetLast(arena: seq<Node>, c: nat, r: Ref): (a: seq<Node>)
    requires c < |arena| && arena[c].CallNode?
    ensures |a| == |arena| && a[c].CallNode? && a[c].last == r
    ensures a[c].(last := arena[c].last) == arena[c]
    ensures forall k :: 0 <= k < |arena| && k != c ==> a[k] == arena[k]
  {
    arena[c := arena[c].(last := r)]
  }

  /**
   * Append an interface node for the call at position c and make it the
   * call's last interface event: the common tail of the exit, redo, fail
   * and exception builders.
   */
  function AddInterface(arena: seq<Node>, c: nat, n: Node): (a: seq<Node>)
    requires c < |arena| && arena[c].CallNode?
    ensures |a| == |arena| + 1 && a[|arena|] == n
    ensures a[c].CallNode? && a[c].last == At(|arena|) && a[c].(last := arena[c].last) == arena[c]
    ensures forall k :: 0 <= k < |arena| && k != c ==> a[k] == arena[k]
  {
    SetLast(arena + [n], c, At(|arena|))
  }

  /**
   * The chain read from a node of the old arena is the same after a node is
   * appended and a call record is rewritten: the chain only visits
   * interface nodes, and those are untouched.
   */
  lemma {:induction false} ChainFrame(arena: seq<Node>, a: seq<Node>, c: nat, r: Ref)
    requires c < |arena| <= |a| && !IsInterface(arena[c]) && !IsInterface(a[c])
    requires forall k :: 0 <= k < |arena| && k != c ==> a[k] == arena[k]
    requires InArena(arena, r)
    ensures Chain(a, r) == Chain(arena, r)
    decreases if r.At? then r.i + 1 else 0
  {
    if r.At? && r.i != c && IsInterface(arena[r.i]) && Before(arena[r.i].prior, r.i) {
      ChainFrame(arena, a, c, arena[r.i].prior);
    }
  }

  /** Two nodes built by the same constructor. */
  predicate SameShape(x: Node, y: Node) {
    PortOf(x) == PortOf(y) && x.FirstDisjNode? == y.FirstDisjNode?
  }

  /**
   * A node's links only look at the shape of the nodes they name, so a node
   * stays well linked when the arena grows and other records are rewritten
   * without changing their shape.
   */
  lemma NodeOkFrame(arena: seq<Node>, a: seq<Node>, i: nat)
    requires i < |arena| <= |a| && a[i] == arena[i] && NodeOk(arena, i)
    requires forall j :: 0 <= j < |arena| ==> SameShape(a[j], arena[j])
    ensures NodeOk(a, i)
  {
  }

  /** Building an interface node for a call keeps the arena well formed. */
  lemma AddInterfaceKeepsWellFormed(arena: seq<Node>, c: nat, n: Node)
    requires WellFormed(arena) && c < |arena| && arena[c].CallNode?
    requires IsInterface(n) && n.prior == arena[c].last && Before(n.prev, |arena|)
    requires !n.RedoNode? ==> n.call == At(c)
    ensures WellFormed(AddInterface(arena, c, n))
  {
    var a := AddInterface(arena, c, n);
    assert NodeOk(arena, c);
    assert forall j :: 0 <= j < |arena| ==> SameShape(a[j], arena[j]);
    forall i | 0 <= i < |a|
      ensures NodeOk(a, i)
    {
      if i < |arena| && i != c {
        NodeOkFrame(arena, a, i);
      }
    }
  }

  /**
   * Building an interface node for a call puts the new node at the head of
   * the call's history: the history lists the call's interface events in
   * reverse order of occurrence.
   */
  lemma AddInterfaceExtendsHistory(arena: seq<Node>, c: nat, n: Node)
    requires WellFormed(arena) && c < |arena| && arena[c].CallNode?
    requires IsInterface(n) && n.prior == arena[c].last && Before(n.prev, |arena|)
    ensures History(AddInterface(arena, c, n), c) == [|arena|] + History(arena, c)
  {
    var a := AddInterface(arena, c, n);
    assert NodeOk(arena, c);
    ChainFrame(arena, a, c, n.prior);
  }

  /** Adding an interface event to one call leaves the history of every other call as it was. */
  lemma AddInterfaceKeepsOtherHistories(arena: seq<Node>, c: nat, n: Node, d: nat)
    requires WellFormed(arena) && c < |arena| && arena[c].CallNode?
    requires d < |arena| && d != c && arena[d].CallNode?
    ensures History(AddInterface(arena, c, n), d) == History(arena, d)
  {
    assert NodeOk(arena, d);
    ChainFrame(arena, AddInterface(arena, c, n), c, arena[d].last);
  }

  /** A node whose links are in place can be appended to a well-formed arena. */
  lemma AppendKeepsWellFormed(arena: seq<Node>, n: Node)
    requires WellFormed(arena) && NodeOk(arena + [n], |arena|)
    ensures WellFormed(arena + [n])
  {
    var a := arena + [n];
    forall i | 0 <= i < |arena|
      ensures NodeOk(a, i)
    {
      NodeOkFrame(arena, a, i);
    }
  }

  /** MR_DD_cond_node_set_status and MR_DD_neg_node_set_status. */
  function SetStatus(arena: seq<Node>, i: nat, s: Status): (a: seq<Node>)
    requires i < |arena| && (arena[i].CondNode? || arena[i].NegNode?)
    ensures |a| == |arena| && SameShape(a[i], arena[i]) && a[i].prev == arena[i].prev
    ensures (a[i].CondNode? || a[i].NegNode?) && a[i].status == s && a[i].(status := arena[i].status) == arena[i]
    ensures forall k :: 0 <= k < |arena| && k != i ==> a[k] == arena[k]
  {
    arena[i := arena[i].(status := s)]
  }

  /** Setting a status keeps the arena well formed. */
  lemma SetStatusKeepsWellFormed(arena: seq<Node>, i: nat, s: Status)
    requires WellFormed(arena) && i < |arena| && (arena[i].CondNode? || arena[i].NegNode?)
    ensures WellFormed(SetStatus(arena, i, s))
  {
    var a := SetStatus(arena, i, s);
    assert forall j :: 0 <= j < |arena| ==> SameShape(a[j], arena[j]);
    forall k | 0 <= k < |a|
      ensures NodeOk(a, k)
    {
      if k != i {
        NodeOkFrame(arena, a, k);
      } else {
        assert NodeOk(arena, i);
      }
    }
  }

  /** Setting a status leaves every call's history as it was. */
  lemma SetStatusKeepsHistory(arena: seq<Node>, i: nat, s: Status, c: nat)
    requires WellFormed(arena) && i < |arena| && (arena[i].CondNode? || arena[i].NegNode?)
    requires c < |arena| && arena[c].CallNode?
    ensures History(SetStatus(arena, i, s), c) == History(arena, c)
  {
    assert NodeOk(arena, c);
    ChainFrame(arena, SetStatus(arena, i, s), i, arena[c].last);
  }

  // ---------------------------------------------------------------------
  // Disjunctions

  /**
   * The first disjunct of the disjunction a DISJ node belongs to:
   * MR_trace_node_first_disj answers NULL for a first disjunct, and the
   * caller then takes the node itself.
   */
  function FirstOf(arena: seq<Node>, j: nat): (r: Ref)
    requires WellFormed(arena) && j < |arena| && PortOf(arena[j]) == Disj
    ensures r.At? && r.i <= j && arena[r.i].FirstDisjNode?
  {
    assert NodeOk(arena, j);
    if arena[j].LaterDisjNode? then arena[j].first else At(j)
  }

  // ---------------------------------------------------------------------
  // Walking backwards through contours

  /**
   * MR_DD_step_left_in_contour and MR_DD_find_prev_contour, which live on
   * the Mercury side: each maps a node of the arena to another node
   * identifier.
   */
  datatype Navigator = Navigator(stepLeft: (seq<Node>, nat) -> Ref, prevContour: (seq<Node>, nat) -> Ref)

  /** Both walks only ever move to an earlier node, or run off the root. */
  ghost predicate Sound(nav: Navigator) {
    forall arena: seq<Node>, i: nat ::
      Before(nav.stepLeft(arena, i), i) && Before(nav.prevContour(arena, i), i)
  }

  /**
   * What one search loop learns from looking at a node: whether it is the
   * node sought, and how many times the look advanced the node store.
   */
  datatype Probe = Probe(hit: bool, cost: nat)

  /**
   * The node reached by stepping left in the contour from `r` until `probe`
   * accepts one: the shape shared by every search loop of the back end.
   * Running off the root is an error.
   */
  function FindLeft(nav: Navigator, arena: seq<Node>, probe: Node -> Probe, r: Ref): (res: Result<nat>)
    requires Sound(nav)
    ensures res.Ok? ==> r.At? && res.value <= r.i && res.value < |arena| && probe(arena[res.value]).hit
    ensures r.At? && r.i < |arena| && probe(arena[r.i]).hit ==> res == Ok(r.i)
    decreases if r.At? then r.i + 1 else 0
  {
    if r.Null? || r.i >= |arena| then Err("contour walk ran off the root")
    else if probe(arena[r.i]).hit then Ok(r.i)
    else
      assert Before(nav.stepLeft(arena, r.i), r.i);
      FindLeft(nav, arena, probe, nav.stepLeft(arena, r.i))
  }

  /** How far that search advances the node store: its looks plus one per step. */
  function SearchCost(nav: Navigator, arena: seq<Node>, probe: Node -> Probe, r: Ref): nat
    requires Sound(nav)
    decreases if r.At? then r.i + 1 else 0
  {
    if r.Null? || r.i >= |arena| then 0
    else if probe(arena[r.i]).hit then probe(arena[r.i]).cost
    else
      assert Before(nav.stepLeft(arena, r.i), r.i);
      probe(arena[r.i]).cost + 1 + SearchCost(nav, arena, probe, nav.stepLeft(arena, r.i))
  }

  /** MR_trace_matching_call's test: the port alone, which does not touch the store. */
  function CallProbe(n: Node): (p: Probe)
    ensures p.hit <==> PortOf(n) == Call
    ensures p.cost == 0
  {
    Probe(n.CallNode?, 0)
  }

  /**
   * MR_trace_matching_cond, MR_trace_matching_neg and MR_trace_matching_disj:
   * a node of the wanted port whose goal path is in the same construct as
   * the event's.  Reading the node's path (MR_trace_node_path) advances the
   * store; a node of another port is rejected on its port alone.
   */
  function ConstructProbe(port: Port, path: string, n: Node): (p: Probe)
    ensures p.hit <==> PortOf(n) == port && HasPath(n) && SameConstruct(path, n.path)
    ensures p.cost == if PortOf(n) == port && HasPath(n) then 1 else 0
  {
    if PortOf(n) == port && HasPath(n) then Probe(SameConstruct(path, n.path), 1)
    else Probe(false, 0)
  }

  /** The sequence number of the call an interface node belongs to. */
  function CallSeqno(arena: seq<Node>, call: Ref): Result<nat> {
    if call.At? && call.i < |arena| && arena[call.i].CallNode? then Ok(arena[call.i].seqno)
    else Err("not an interface event")
  }

  /**
   * The redo search's test: an EXIT node whose call has the given sequence
   * number.  Only for an EXIT is the sequence number read
   * (MR_trace_node_seqno), and that read advances the store.
   */
  function ExitProbe(arena: seq<Node>, seqno: nat, n: Node): (p: Probe)
    ensures p.hit <==> n.ExitNode? && CallSeqno(arena, n.call) == Ok(seqno)
    ensures p.cost == if n.ExitNode? then 1 else 0
  {
    if n.ExitNode? then Probe(CallSeqno(arena, n.call) == Ok(seqno), 1)
    else Probe(false, 0)
  }
}

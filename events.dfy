/**
 * What the declarative debugger's back end reads from a trace event and
 * from the layout of the procedure it belongs to, the name it gives that
 * procedure in an atom, and the reserved stack slot in which a call node
 * can be kept for the rest of the call.
 */
module Events {
  import opened Aet

  /** The fields of a procedure layout (MR_Stack_Layout_Entry) that the back end consults. */
  datatype Entry = Entry(
    hasExecTrace: bool,       // MR_ENTRY_LAYOUT_HAS_EXEC_TRACE
    hasProcId: bool,          // MR_ENTRY_LAYOUT_HAS_PROC_ID
    compilerGenerated: bool,  // MR_ENTRY_LAYOUT_COMPILER_GENERATED
    userName: string,
    userKind: PredOrFunc,
    userArity: nat,
    compArity: nat,
    declSlot: int,            // MR_sle_maybe_decl_debug: the reserved slot, if >= 1
    detStack: bool)           // MR_DETISM_DET_STACK: the frame is on the det stack

  /** The saved sp and curfr registers: the det stack top and the current nondet frame. */
  datatype Regs = Regs(sp: int, curfr: int)

  /** A trace event, as far as the back end looks at it. */
  datatype Event = Event(
    port: Port,
    number: nat,
    seqno: nat,
    depth: nat,
    path: string,
    entry: Entry,
    regs: Regs)

  /**
   * MR_decl_atom_name: the user's name for a user-defined procedure with a
   * procedure id, a fixed placeholder otherwise.
   */
  function AtomName(e: Entry): string
  {
    if e.hasProcId then
      if e.compilerGenerated then "<<internal>>" else e.userName
    else "<<unknown>>"
  }

  /**
   * The procedure identity MR_decl_make_atom records: a compiler-generated
   * procedure counts as a predicate with its own arity field.
   */
  function MakeAtom(e: Entry): Atom
  {
    if e.compilerGenerated then Atom(Pred, AtomName(e), e.compArity)
    else Atom(e.userKind, AtomName(e), e.userArity)
  }

  // ---------------------------------------------------------------------
  // Reserved stack slots

  /** A stack slot: numbered from the det stack top or from a nondet frame. */
  datatype SlotAddr = StackSlot(sp: int, slot: int) | FrameSlot(curfr: int, slot: int)

  /**
   * Where MR_trace_decl_get_slot and MR_trace_decl_set_slot look: the
   * procedure's reserved slot, in the det stack frame for a procedure that
   * lives there and in the nondet frame otherwise.
   */
  function SlotAddress(e: Entry, regs: Regs): SlotAddr
  {
    if e.detStack then StackSlot(regs.sp, e.declSlot) else FrameSlot(regs.curfr, e.declSlot)
  }

  /**
   * Two reads or writes meet in the same slot exactly when both procedures
   * keep their frames on the same stack, reserve the same slot number, and
   * run in the same frame: the same sp on the det stack, the same curfr on
   * the nondet stack.
   */
  lemma SameSlotAddress(e1: Entry, r1: Regs, e2: Entry, r2: Regs)
    ensures SlotAddress(e1, r1) == SlotAddress(e2, r2) <==>
              && e1.detStack == e2.detStack && e1.declSlot == e2.declSlot
              && (if e1.detStack then r1.sp == r2.sp else r1.curfr == r2.curfr)
  {
  }

  /** The contents of the stack slots the back end uses; a slot never written reads as NULL. */
  type Slots = map<SlotAddr, Ref>

  /**
   * MR_trace_decl_get_slot: the node stored in the procedure's reserved
   * slot; a slot never written holds no node.
   */
  function GetSlot(m: Slots, e: Entry, regs: Regs): (r: Ref)
    ensures SlotAddress(e, regs) !in m ==> r.Null?
    ensures r.At? ==> SlotAddress(e, regs) in m && m[SlotAddress(e, regs)] == r
  {
    var a := SlotAddress(e, regs);
    if a in m then m[a] else Null
  }

  /**
   * MR_trace_decl_set_slot.  Reading back through the same layout and
   * registers gives the node written; a read that resolves to any other
   * slot sees what it saw before.
   */
  function SetSlot(m: Slots, e: Entry, regs: Regs, node: Ref): (m': Slots)
    ensures GetSlot(m', e, regs) == node
    ensures forall e2: Entry, regs2: Regs {:trigger GetSlot(m', e2, regs2)} ::
              SlotAddress(e2, regs2) != SlotAddress(e, regs) ==> GetSlot(m', e2, regs2) == GetSlot(m, e2, regs2)
  {
    m[SlotAddress(e, regs) := node]
  }

  /**
   * Writing a procedure's slot leaves alone every read in another frame,
   * on the other stack, or of another slot number.
   */
  lemma SetSlotKeepsOtherFrames(m: Slots, e: Entry, regs: Regs, node: Ref, e2: Entry, regs2: Regs)
    requires || e2.detStack != e.detStack || e2.declSlot != e.declSlot
             || (if e.detStack then regs2.sp != regs.sp else regs2.curfr != regs.curfr)
    ensures GetSlot(SetSlot(m, e, regs, node), e2, regs2) == GetSlot(m, e2, regs2)
  {
    SameSlotAddress(e, regs, e2, regs2);
  }
}

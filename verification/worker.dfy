/**
 * The per-work-group accumulator (`WorkerState m_state`) and the hooks that
 * update it while the simulator executes a work-group: one event per
 * executed instruction, per memory access, and per work-item begin, barrier
 * and completion.
 *
 * The simulator keeps one such state per thread (`THREAD_LOCAL`); here the
 * state is an explicit object.  What the hooks learn from LLVM (opcode name,
 * address space, pointer-operand name, block label, branch operands, debug
 * line, result width) arrives as an `Instruction` value.
 */
module Worker {

  import opened Histogram

  /** Address-space numbers of Oclgrind's `core/common.h`. */
  const AddrSpacePrivate: nat := 0
  const AddrSpaceGlobal: nat := 1
  const AddrSpaceConstant: nat := 2
  const AddrSpaceLocal: nat := 3

  /** An operand as the branch test sees it: a basic-block label with its printed name, or another value. */
  datatype Operand = Label(name: string) | Value

  /** The opcode of an executed instruction; a load or store carries its pointer's address space and name. */
  datatype Opcode =
    | Load(space: nat, pointer: string)
    | Store(space: nat, pointer: string)
    | Br
    | Other(name: string)

  /** What the hook reads of one executed instruction. */
  datatype Instruction = Instruction(
    opcode: Opcode,
    operands: seq<Operand>,
    block: string,
    line: nat,
    width: nat)

  /** `llvm::Instruction::getOpcodeName`. */
  function OpcodeName(op: Opcode): string
  {
    match op
    case Load(_, _) => "load"
    case Store(_, _) => "store"
    case Br => "br"
    case Other(name) => name
  }

  predicate IsLoadOrStore(op: Opcode)
  {
    op.Load? || op.Store?
  }

  /** 1 when `op` is a load or store through address space `space` (the switch at 159-177). */
  function SpaceCount(op: Opcode, space: nat): nat
  {
    if IsLoadOrStore(op) && op.space == space then 1 else 0
  }

  /** A `br` with three operands whose second and third are labels: a conditional branch (lines 213-214). */
  predicate IsConditionalBranch(inst: Instruction)
  {
    inst.opcode.Br? && |inst.operands| == 3 && inst.operands[1].Label? && inst.operands[2].Label?
  }

  /** The outcomes recorded at a branch location (`operator[]` on an absent key gives an empty vector). */
  function Outcomes(m: map<nat, seq<bool>>, loc: nat): seq<bool>
  {
    if loc in m then m[loc] else []
  }

  /** `branchOps[loc].push_back(taken)`. */
  function Record(m: map<nat, seq<bool>>, loc: nat, taken: bool): (r: map<nat, seq<bool>>)
    ensures r.Keys == m.Keys + {loc}
    ensures Outcomes(r, loc) == Outcomes(m, loc) + [taken]
    ensures forall l :: l in m && l != loc ==> r[l] == m[l]
  {
    m[loc := Outcomes(m, loc) + [taken]]
  }

  /**
   * The branch logic variables: whether the previous instruction was a
   * conditional branch, its two target labels and its source line.
   */
  datatype BranchState = BranchState(pending: bool, target1: string, target2: string, loc: nat)

  /** No branch pending, as `workGroupBegin` leaves it (lines 719-722). */
  const NoBranch := BranchState(false, "", "", 0)

  /** Whether the instruction's block resolves the branch state: nothing pending, or one of the two targets. */
  predicate Resolves(b: BranchState, block: string)
  {
    !b.pending || block == b.target1 || block == b.target2
  }

  /** The branch outcomes after the block `block` resolves `b`: taken when it is the first target. */
  function Resolved(m: map<nat, seq<bool>>, b: BranchState, block: string): map<nat, seq<bool>>
  {
    if b.pending then Record(m, b.loc, block == b.target1) else m
  }

  /** The branch state after executing `inst`: armed with its targets and line when it is a conditional branch. */
  function Armed(b: BranchState, inst: Instruction): (r: BranchState)
    requires !b.pending
    ensures r.pending == IsConditionalBranch(inst)
  {
    if IsConditionalBranch(inst) then BranchState(true, inst.operands[1].name, inst.operands[2].name, inst.line)
    else b
  }

  class WorkerState {
    var memoryOps: seq<nat>
    var computeOps: map<string, nat>
    var branchOps: map<nat, seq<bool>>
    var betweenBarriers: seq<nat>
    var instructionWidth: map<nat, nat>
    var perWorkitem: seq<nat>
    var betweenLoadOrStore: seq<nat>
    var loadLabels: map<string, nat>
    var storeLabels: map<string, nat>
    var threads: nat
    var instructionCount: nat
    var workitemInstructionCount: nat
    var opsBetween: nat
    var barriersHit: nat
    var constantAccesses: nat
    var localAccesses: nat
    var globalAccesses: nat
    var branch: BranchState
    /** Work-items completed since the state was last cleared. */
    ghost var completed: nat

    /**
     * What the hooks keep true between events: one barrier distance per
     * barrier and per completed work-item, one instruction count per
     * completed work-item, one load/store gap of at least 1 per load or store,
     * one SIMD-width entry per counted opcode, and at most one address-space
     * count per load or store.
     */
    ghost predicate Valid()
      reads this`betweenBarriers, this`barriersHit, this`perWorkitem, this`completed
      reads this`betweenLoadOrStore, this`loadLabels, this`storeLabels
      reads this`constantAccesses, this`localAccesses, this`globalAccesses
      reads this`computeOps, this`instructionWidth
    {
      BarriersValid() && GapsValid() && WidthsValid()
    }

    ghost predicate BarriersValid()
      reads this`betweenBarriers, this`barriersHit, this`perWorkitem, this`completed
    {
      |betweenBarriers| == barriersHit + completed && |perWorkitem| == completed
    }

    ghost predicate GapsValid()
      reads this`betweenLoadOrStore, this`loadLabels, this`storeLabels
      reads this`constantAccesses, this`localAccesses, this`globalAccesses
    {
      && (forall i :: 0 <= i < |betweenLoadOrStore| ==> betweenLoadOrStore[i] >= 1)
      && Total(loadLabels) + Total(storeLabels) == |betweenLoadOrStore|
      && constantAccesses + localAccesses + globalAccesses <= |betweenLoadOrStore|
    }

    ghost predicate WidthsValid()
      reads this`computeOps, this`instructionWidth
    {
      Total(computeOps) == Total(instructionWidth)
    }

    /** Every container empty, every counter zero and no branch pending. */
    ghost predicate Cleared()
      reads this
    {
      && memoryOps == [] && betweenBarriers == [] && perWorkitem == [] && betweenLoadOrStore == []
      && computeOps == map[] && branchOps == map[] && instructionWidth == map[]
      && loadLabels == map[] && storeLabels == map[]
      && threads == 0 && instructionCount == 0 && barriersHit == 0
      && constantAccesses == 0 && localAccesses == 0 && globalAccesses == 0
      && branch == NoBranch && completed == 0
    }

    /** A cleared state keeps the hooks' invariant. */
    lemma ClearedValid()
      requires Cleared()
      ensures Valid()
    {
      TotalEmpty(computeOps);
      TotalEmpty(instructionWidth);
      TotalEmpty(loadLabels);
      TotalEmpty(storeLabels);
    }

    /** The state of a fresh thread: all cleared, the per-work-item counters zero. */
    constructor ()
      ensures Cleared() && Valid()
      ensures workitemInstructionCount == 0 && opsBetween == 0
    {
      memoryOps, betweenBarriers, perWorkitem, betweenLoadOrStore := [], [], [], [];
      computeOps, branchOps, instructionWidth := map[], map[], map[];
      loadLabels, storeLabels := map[], map[];
      threads, instructionCount, barriersHit := 0, 0, 0;
      constantAccesses, localAccesses, globalAccesses := 0, 0, 0;
      workitemInstructionCount, opsBetween := 0, 0;
      branch := NoBranch;
      completed := 0;
      new;
      ClearedValid();
    }

    method ClearLogs()
      modifies this`memoryOps, this`betweenBarriers, this`perWorkitem, this`betweenLoadOrStore, this`completed
      ensures memoryOps == [] && betweenBarriers == [] && perWorkitem == [] && betweenLoadOrStore == []
      ensures completed == 0
    {
      memoryOps, betweenBarriers, perWorkitem, betweenLoadOrStore := [], [], [], [];
      completed := 0;
    }

    method ClearHistograms()
      modifies this`computeOps, this`branchOps, this`instructionWidth, this`loadLabels, this`storeLabels
      ensures computeOps == map[] && branchOps == map[] && instructionWidth == map[]
      ensures loadLabels == map[] && storeLabels == map[]
    {
      computeOps, branchOps, instructionWidth := map[], map[], map[];
      loadLabels, storeLabels := map[], map[];
    }

    method ClearCounters()
      modifies this`threads, this`instructionCount, this`barriersHit
      modifies this`constantAccesses, this`localAccesses, this`globalAccesses, this`branch
      ensures threads == 0 && instructionCount == 0 && barriersHit == 0
      ensures constantAccesses == 0 && localAccesses == 0 && globalAccesses == 0
      ensures branch == NoBranch
    {
      threads, instructionCount, barriersHit := 0, 0, 0;
      constantAccesses, localAccesses, globalAccesses := 0, 0, 0;
      branch := NoBranch;
    }

    /**
     * `workGroupBegin` (lines 685-723): every container emptied and every
     * counter reset, except the per-work-item instruction count and the
     * load/store gap counter, which `WorkItemBegin` resets.
     */
    method WorkGroupBegin()
      modifies this
      ensures Cleared() && Valid()
      ensures workitemInstructionCount == old(workitemInstructionCount)
      ensures opsBetween == old(opsBetween)
    {
      ClearLogs();
      ClearHistograms();
      ClearCounters();
      ClearedValid();
    }

    /**
     * `memoryLoad`, `memoryStore`, `memoryAtomicLoad`, `memoryAtomicStore`
     * (lines 114-136): the address is logged unless the memory is private.
     * The atomic hooks compare with the literal 0, the number of the private
     * address space.
     */
    method MemoryAccess(space: nat, address: nat)
      modifies this`memoryOps
      ensures memoryOps == if space != AddrSpacePrivate then old(memoryOps) + [address] else old(memoryOps)
    {
      if space != AddrSpacePrivate {
        memoryOps := memoryOps + [address];
      }
    }

    /**
     * Lines 142-177: the opcode histogram, and the address-space counters of
     * loads and stores (private and unknown spaces are not counted).
     */
    method CountOpcode(op: Opcode)
      modifies this`computeOps, this`localAccesses, this`globalAccesses, this`constantAccesses
      ensures computeOps == Inc(old(computeOps), OpcodeName(op))
      ensures Total(computeOps) == Total(old(computeOps)) + 1
      ensures localAccesses == old(localAccesses) + SpaceCount(op, AddrSpaceLocal)
      ensures globalAccesses == old(globalAccesses) + SpaceCount(op, AddrSpaceGlobal)
      ensures constantAccesses == old(constantAccesses) + SpaceCount(op, AddrSpaceConstant)
    {
      TotalInc(computeOps, OpcodeName(op));
      computeOps := Inc(computeOps, OpcodeName(op));
      if IsLoadOrStore(op) {
        if op.space == AddrSpaceLocal {
          localAccesses := localAccesses + 1;
        } else if op.space == AddrSpaceGlobal {
          globalAccesses := globalAccesses + 1;
        } else if op.space == AddrSpaceConstant {
          constantAccesses := constantAccesses + 1;
        }
      }
    }

    /**
     * Lines 180-193: every instruction widens the gap; a load or store counts
     * its pointer's label, records the gap including itself and restarts it.
     */
    method TrackLoadStore(op: Opcode)
      modifies this`opsBetween, this`loadLabels, this`storeLabels, this`betweenLoadOrStore
      ensures loadLabels == if op.Load? then Inc(old(loadLabels), op.pointer) else old(loadLabels)
      ensures storeLabels == if op.Store? then Inc(old(storeLabels), op.pointer) else old(storeLabels)
      ensures Total(loadLabels) + Total(storeLabels)
           == Total(old(loadLabels)) + Total(old(storeLabels)) + (if IsLoadOrStore(op) then 1 else 0)
      ensures betweenLoadOrStore ==
        if IsLoadOrStore(op) then old(betweenLoadOrStore) + [old(opsBetween) + 1] else old(betweenLoadOrStore)
      ensures opsBetween == if IsLoadOrStore(op) then 0 else old(opsBetween) + 1
    {
      opsBetween := opsBetween + 1;
      if op.Load? {
        TotalInc(loadLabels, op.pointer);
        loadLabels := Inc(loadLabels, op.pointer);
        betweenLoadOrStore := betweenLoadOrStore + [opsBetween];
        opsBetween := 0;
      } else if op.Store? {
        TotalInc(storeLabels, op.pointer);
        storeLabels := Inc(storeLabels, op.pointer);
        betweenLoadOrStore := betweenLoadOrStore + [opsBetween];
        opsBetween := 0;
      }
    }

    /**
     * Lines 196-210: a pending branch is resolved by the block the next
     * instruction belongs to; a block matching neither target is an error.
     */
    method ResolveBranch(block: string) returns (ok: bool)
      modifies this`branchOps, this`branch
      ensures ok <==> Resolves(old(branch), block)
      ensures ok ==> branch == old(branch).(pending := false)
      ensures ok ==> branchOps == Resolved(old(branchOps), old(branch), block)
      ensures !ok ==> branchOps == old(branchOps) && branch == old(branch)
    {
      if branch.pending {
        if block == branch.target1 {
          branchOps := Record(branchOps, branch.loc, true);
        } else if block == branch.target2 {
          branchOps := Record(branchOps, branch.loc, false);
        } else {
          return false;
        }
        branch := branch.(pending := false);
      }
      ok := true;
    }

    /** Lines 212-227: a conditional branch records its two targets and its line. */
    method ArmBranch(inst: Instruction)
      requires !branch.pending
      modifies this`branch
      ensures branch == Armed(old(branch), inst)
    {
      if IsConditionalBranch(inst) {
        branch := BranchState(true, inst.operands[1].name, inst.operands[2].name, inst.line);
      }
    }

    /** Lines 230-235: the instruction counters and the SIMD-width histogram. */
    method CountInstruction(width: nat)
      modifies this`instructionCount, this`workitemInstructionCount, this`instructionWidth
      ensures instructionCount == old(instructionCount) + 1
      ensures workitemInstructionCount == old(workitemInstructionCount) + 1
      ensures instructionWidth == Inc(old(instructionWidth), width)
      ensures Total(instructionWidth) == Total(old(instructionWidth)) + 1
    {
      instructionCount := instructionCount + 1;
      workitemInstructionCount := workitemInstructionCount + 1;
      TotalInc(instructionWidth, width);
      instructionWidth := Inc(instructionWidth, width);
    }

    /** Lines 142-193: the opcode, address-space and load/store bookkeeping every instruction gets. */
    method CountOperation(op: Opcode)
      requires GapsValid()
      modifies this`computeOps, this`localAccesses, this`globalAccesses, this`constantAccesses
      modifies this`opsBetween, this`loadLabels, this`storeLabels, this`betweenLoadOrStore
      ensures computeOps == Inc(old(computeOps), OpcodeName(op))
      ensures Total(computeOps) == Total(old(computeOps)) + 1
      ensures localAccesses == old(localAccesses) + SpaceCount(op, AddrSpaceLocal)
      ensures globalAccesses == old(globalAccesses) + SpaceCount(op, AddrSpaceGlobal)
      ensures constantAccesses == old(constantAccesses) + SpaceCount(op, AddrSpaceConstant)
      ensures loadLabels == if op.Load? then Inc(old(loadLabels), op.pointer) else old(loadLabels)
      ensures storeLabels == if op.Store? then Inc(old(storeLabels), op.pointer) else old(storeLabels)
      ensures Total(loadLabels) + Total(storeLabels)
           == Total(old(loadLabels)) + Total(old(storeLabels)) + (if IsLoadOrStore(op) then 1 else 0)
      ensures betweenLoadOrStore ==
        if IsLoadOrStore(op) then old(betweenLoadOrStore) + [old(opsBetween) + 1] else old(betweenLoadOrStore)
      ensures opsBetween == if IsLoadOrStore(op) then 0 else old(opsBetween) + 1
      ensures GapsValid()
    {
      CountOpcode(op);
      TrackLoadStore(op);
    }

    /** Lines 196-235: the branch bookkeeping, then the counters, unless the branch cannot be resolved. */
    method CountControl(inst: Instruction) returns (ok: bool)
      modifies this`branchOps, this`branch
      modifies this`instructionCount, this`workitemInstructionCount, this`instructionWidth
      ensures ok <==> Resolves(old(branch), inst.block)
      ensures ok ==> branchOps == Resolved(old(branchOps), old(branch), inst.block)
      ensures ok ==> branch == Armed(old(branch).(pending := false), inst)
      ensures !ok ==> branchOps == old(branchOps) && branch == old(branch)
      ensures instructionCount == old(instructionCount) + (if ok then 1 else 0)
      ensures workitemInstructionCount == old(workitemInstructionCount) + (if ok then 1 else 0)
      ensures instructionWidth == if ok then Inc(old(instructionWidth), inst.width) else old(instructionWidth)
      ensures Total(instructionWidth) == Total(old(instructionWidth)) + (if ok then 1 else 0)
    {
      ok := ResolveBranch(inst.block);
      if !ok {
        return;
      }
      ArmBranch(inst);
      CountInstruction(inst.width);
    }

    /**
     * `instructionExecuted` (lines 138-238).  The result is false when a
     * branch was pending and the instruction's block is neither of its
     * targets: the source raises `SIGINT` there, and the model stops with the
     * updates made up to that point.
     */
    method InstructionExecuted(inst: Instruction) returns (ok: bool)
      requires GapsValid() && WidthsValid()
      modifies this`computeOps, this`localAccesses, this`globalAccesses, this`constantAccesses
      modifies this`opsBetween, this`loadLabels, this`storeLabels, this`betweenLoadOrStore
      modifies this`branchOps, this`branch
      modifies this`instructionCount, this`workitemInstructionCount, this`instructionWidth
      ensures ok <==> Resolves(old(branch), inst.block)
      ensures computeOps == Inc(old(computeOps), OpcodeName(inst.opcode))
      ensures localAccesses == old(localAccesses) + SpaceCount(inst.opcode, AddrSpaceLocal)
      ensures globalAccesses == old(globalAccesses) + SpaceCount(inst.opcode, AddrSpaceGlobal)
      ensures constantAccesses == old(constantAccesses) + SpaceCount(inst.opcode, AddrSpaceConstant)
      ensures loadLabels == if inst.opcode.Load? then Inc(old(loadLabels), inst.opcode.pointer) else old(loadLabels)
      ensures storeLabels == if inst.opcode.Store? then Inc(old(storeLabels), inst.opcode.pointer) else old(storeLabels)
      ensures betweenLoadOrStore ==
        if IsLoadOrStore(inst.opcode) then old(betweenLoadOrStore) + [old(opsBetween) + 1] else old(betweenLoadOrStore)
      ensures opsBetween == if IsLoadOrStore(inst.opcode) then 0 else old(opsBetween) + 1
      ensures ok ==> branchOps == Resolved(old(branchOps), old(branch), inst.block)
      ensures ok ==> branch == Armed(old(branch).(pending := false), inst)
      ensures !ok ==> branchOps == old(branchOps) && branch == old(branch)
      ensures instructionCount == old(instructionCount) + (if ok then 1 else 0)
      ensures workitemInstructionCount == old(workitemInstructionCount) + (if ok then 1 else 0)
      ensures instructionWidth == if ok then Inc(old(instructionWidth), inst.width) else old(instructionWidth)
      ensures ok ==> GapsValid() && WidthsValid()
    {
      CountOperation(inst.opcode);
      ok := CountControl(inst);
    }

    /**
     * `workItemBegin` (lines 250-255).  None of the fields it resets is read
     * by `Valid`, so the invariant carries over by the frame alone.
     */
    method WorkItemBegin()
      modifies this`threads, this`instructionCount, this`workitemInstructionCount, this`opsBetween
      ensures threads == old(threads) + 1
      ensures instructionCount == 0 && workitemInstructionCount == 0 && opsBetween == 0
    {
      threads := threads + 1;
      instructionCount, workitemInstructionCount, opsBetween := 0, 0, 0;
    }

    /** `workItemBarrier` (lines 240-244): the distance since the last barrier is recorded. */
    method WorkItemBarrier()
      requires BarriersValid()
      modifies this`barriersHit, this`betweenBarriers, this`instructionCount
      ensures BarriersValid()
      ensures barriersHit == old(barriersHit) + 1
      ensures betweenBarriers == old(betweenBarriers) + [old(instructionCount)]
      ensures instructionCount == 0
    {
      barriersHit := barriersHit + 1;
      betweenBarriers := betweenBarriers + [instructionCount];
      instructionCount := 0;
    }

    /** `workItemClearBarrier` (lines 246-248): the distance restarts without being recorded. */
    method WorkItemClearBarrier()
      modifies this`instructionCount
      ensures instructionCount == 0
    {
      instructionCount := 0;
    }

    /** `workItemComplete` (lines 257-260): the last barrier distance and the work-item's instruction count are recorded. */
    method WorkItemComplete()
      requires BarriersValid()
      modifies this`betweenBarriers, this`perWorkitem, this`completed
      ensures BarriersValid()
      ensures betweenBarriers == old(betweenBarriers) + [instructionCount]
      ensures perWorkitem == old(perWorkitem) + [workitemInstructionCount]
      ensures completed == old(completed) + 1
    {
      betweenBarriers := betweenBarriers + [instructionCount];
      perWorkitem := perWorkitem + [workitemInstructionCount];
      completed := completed + 1;
    }
  }
}

/** The executor's two instruction caches over guest memory, and its bounded fault-retry loop. */
module InstructionExecutor {
  import opened Options
  import opened PagedMemory
  import opened GuestMemory

  datatype ExecutionMode = Real16 | Compat32 | Long64

  /** What the decoder makes of the bytes at an address; the decoder itself is a parameter. */
  datatype Instruction = Instruction(code: int, length: nat)

  type Decoder = (ExecutionMode, nat, seq<bv8>) -> Option<Instruction>

  const MAX_INSTRUCTION_LENGTH: nat := 15
  const DECODE_CACHE_SIZE: nat := 8192
  const CODE_PAGE_CACHE_SIZE: nat := 64
  const MAX_FAULT_RETRIES: nat := 8

  // -------------------------------------------------- without any cache

  datatype Fetched = Decoded(instr: Instruction) | FetchFault | DecodeError

  /** Fetching and decoding straight from memory: every fetched byte must lie in an executable page. */
  function Fresh(decode: Decoder, v: View, mode: ExecutionMode, rip: nat): Fetched
  {
    var bytes := ReadPrefix(v, rip, MAX_INSTRUCTION_LENGTH, InstructionFetch);
    if |bytes| < MAX_INSTRUCTION_LENGTH then FetchFault
    else match decode(mode, rip, bytes)
      case None => DecodeError
      case Some(instr) => Decoded(instr)
  }

  /** Fetches see only the code of the pages that they touch. */
  lemma {:induction false} SameFetch(v: View, w: View, address: nat, size: nat)
    requires forall a :: address <= a < address + size ==> SameCodePage(v, w, a / PAGE)
    ensures ReadPrefix(v, address, size, InstructionFetch) == ReadPrefix(w, address, size, InstructionFetch)
    decreases size
  {
    assert 0 < size ==> SameCodePage(v, w, address / PAGE);
    if size != 0 && Executable(v, address / PAGE) {
      var chunk := Chunk(address, size);
      SameFetch(v, w, address + chunk, size - chunk);
    }
  }

  // ------------------------------------------------------------ the caches

  datatype DecodeEntry = DecodeEntry(rip: nat, codeEpoch: nat, mode: ExecutionMode, valid: bool, instructionLength: nat, instr: Instruction)

  datatype CodePageEntry = CodePageEntry(pageBase: nat, codeEpoch: nat, valid: bool, bytes: seq<bv8>)

  /** The pages of the bytes that are fetched for the instruction at rip. */
  function PagesAt(rip: nat): set<nat> { {rip / PAGE, (rip + MAX_INSTRUCTION_LENGTH - 1) / PAGE} }

  lemma FetchedPages(rip: nat, a: nat)
    requires rip <= a < rip + MAX_INSTRUCTION_LENGTH
    ensures a / PAGE in PagesAt(rip)
  {}

  /** An entry of the current epoch is what a fresh fetch and decode would give, from pages that have been seen. */
  ghost predicate DecodeEntryOk(e: DecodeEntry, decode: Decoder, v: View, epoch: nat, seen: set<nat>)
  {
    && e.codeEpoch <= epoch
    && (e.valid && e.codeEpoch == epoch ==>
      Fresh(decode, v, e.mode, e.rip) == Decoded(e.instr) && e.instructionLength == LengthOf(e.instr) && PagesAt(e.rip) <= seen)
  }

  function LengthOf(instr: Instruction): nat { if instr.length < 1 then 1 else instr.length }

  /** An entry of the current epoch holds the bytes of an executable page that has been seen. */
  ghost predicate CodePageEntryOk(e: CodePageEntry, v: View, epoch: nat, seen: set<nat>) {
    && e.codeEpoch <= epoch
    && (e.valid && e.codeEpoch == epoch ==>
      e.pageBase % PAGE == 0 && Executable(v, e.pageBase / PAGE) && e.bytes == v[e.pageBase / PAGE].data && e.pageBase / PAGE in seen)
  }

  /** The caches are right, and hold nothing of the current epoch but what was fetched from the pages seen in it. */
  ghost predicate Coherent(d: seq<DecodeEntry>, c: seq<CodePageEntry>, decode: Decoder, v: View, epoch: nat, seen: set<nat>)
  {
    && |d| == DECODE_CACHE_SIZE && |c| == CODE_PAGE_CACHE_SIZE
    && (forall i :: 0 <= i < |d| ==> DecodeEntryOk(d[i], decode, v, epoch, seen))
    && (forall i :: 0 <= i < |c| ==> CodePageEntryOk(c[i], v, epoch, seen))
  }

  /** Every page seen holds the same code. */
  ghost predicate SameSeen(v: View, w: View, seen: set<nat>) { forall p :: p in seen ==> SameCodePage(v, w, p) }

  lemma SameItself(v: View, seen: set<nat>)
    ensures SameSeen(v, v, seen)
  {}

  /** The caches stay coherent over any change of memory that moves the epoch or leaves the code seen alone. */
  lemma StaysCoherent(d: seq<DecodeEntry>, c: seq<CodePageEntry>, decode: Decoder, v: View, epoch: nat, v': View, epoch': nat, seen: set<nat>)
    requires Coherent(d, c, decode, v, epoch, seen)
    requires epoch < epoch' || (epoch == epoch' && SameSeen(v, v', seen))
    ensures Coherent(d, c, decode, v', epoch', if epoch < epoch' then {} else seen)
  {
    hide Fresh, SameCodePage, PagesAt;
    if epoch == epoch' {
      forall i | 0 <= i < |d| ensures DecodeEntryOk(d[i], decode, v', epoch', seen) {
        if d[i].valid && d[i].codeEpoch == epoch { EntryKept(d[i], decode, v, v', epoch, seen); }
      }
      forall i | 0 <= i < |c| ensures CodePageEntryOk(c[i], v', epoch', seen) {
        assert CodePageEntryOk(c[i], v, epoch, seen);
        if c[i].valid && c[i].codeEpoch == epoch { PageKept(v, v', c[i].pageBase / PAGE); }
      }
    }
  }

  lemma EntryKept(e: DecodeEntry, decode: Decoder, v: View, v': View, epoch: nat, seen: set<nat>)
    requires SameSeen(v, v', seen)
    requires e.valid && e.codeEpoch == epoch && DecodeEntryOk(e, decode, v, epoch, seen)
    ensures DecodeEntryOk(e, decode, v', epoch, seen)
  {
    hide ReadPrefix, PagesAt;
    forall a | e.rip <= a < e.rip + MAX_INSTRUCTION_LENGTH ensures SameCodePage(v, v', a / PAGE) { FetchedPages(e.rip, a); }
    SameFetch(v, v', e.rip, MAX_INSTRUCTION_LENGTH);
  }

  lemma PageKept(v: View, w: View, p: nat)
    requires SameCodePage(v, w, p) && Executable(v, p)
    ensures Executable(w, p) && v[p].data == w[p].data
  {}

  /** More pages may be counted as seen. */
  lemma SeenMore(d: seq<DecodeEntry>, c: seq<CodePageEntry>, decode: Decoder, v: View, epoch: nat, seen: set<nat>, more: set<nat>)
    requires Coherent(d, c, decode, v, epoch, seen) && seen <= more
    ensures Coherent(d, c, decode, v, epoch, more)
  {
    hide Fresh, PagesAt;
    forall i | 0 <= i < |d| ensures DecodeEntryOk(d[i], decode, v, epoch, more) {
      assert DecodeEntryOk(d[i], decode, v, epoch, seen);
    }
  }

  lemma DecodeEntryAt(d: seq<DecodeEntry>, c: seq<CodePageEntry>, decode: Decoder, v: View, epoch: nat, seen: set<nat>, i: nat)
    requires Coherent(d, c, decode, v, epoch, seen) && i < DECODE_CACHE_SIZE
    ensures i < |d| && DecodeEntryOk(d[i], decode, v, epoch, seen)
  {}

  lemma DecodeEntryStored(d: seq<DecodeEntry>, c: seq<CodePageEntry>, decode: Decoder, v: View, epoch: nat, seen: set<nat>, i: nat, e: DecodeEntry)
    requires Coherent(d, c, decode, v, epoch, seen) && i < |d| && DecodeEntryOk(e, decode, v, epoch, seen)
    ensures Coherent(d[i := e], c, decode, v, epoch, seen)
  {}

  lemma CodePageEntryAt(d: seq<DecodeEntry>, c: seq<CodePageEntry>, decode: Decoder, v: View, epoch: nat, seen: set<nat>, i: nat)
    requires Coherent(d, c, decode, v, epoch, seen) && i < CODE_PAGE_CACHE_SIZE
    ensures i < |c| && CodePageEntryOk(c[i], v, epoch, seen)
  {}

  lemma CodePageEntryStored(d: seq<DecodeEntry>, c: seq<CodePageEntry>, decode: Decoder, v: View, epoch: nat, seen: set<nat>, i: nat, e: CodePageEntry)
    requires Coherent(d, c, decode, v, epoch, seen) && i < |c| && CodePageEntryOk(e, v, epoch, seen)
    ensures Coherent(d, c[i := e], decode, v, epoch, seen)
  {}

  // ------------------------------------------------------- memory operations

  datatype MemoryOp =
    | MapOp(base: nat, size: nat, permissions: bv8)
    | UnmapOp(base: nat, size: nat)
    | ReprotectOp(base: nat, size: nat, permissions: bv8)
    | ReadOp(address: nat, count: nat, kind: AccessKind)
    | WriteOp(address: nat, src: seq<bv8>)
    | RestoreOp(snapshots: seq<PageSnapshot>)

  /** Addresses do not wrap, and accesses are not empty. */
  ghost predicate OpOk(op: MemoryOp) {
    match op
    case MapOp(base, size, _) => base + size + PAGE <= ADDRESS_LIMIT
    case UnmapOp(base, size) => base + size + PAGE <= ADDRESS_LIMIT
    case ReprotectOp(base, size, _) => base + size + PAGE <= ADDRESS_LIMIT
    case ReadOp(address, count, _) => 0 < count && address + count <= ADDRESS_LIMIT
    case WriteOp(address, src) => 0 < |src| && address + |src| <= ADDRESS_LIMIT
    case RestoreOp(_) => true
  }

  /** What an operation does to memory. */
  function OpView(v: View, op: MemoryOp): View
  {
    match op
    case MapOp(base, size, permissions) => MapPages(v, FirstPage(base), LastPage(base, size), permissions)
    case UnmapOp(base, size) => UnmapPages(v, FirstPage(base), LastPage(base, size))
    case ReprotectOp(base, size, permissions) => ReprotectPages(v, FirstPage(base), LastPage(base, size), permissions)
    case ReadOp(_, _, _) => v
    case WriteOp(address, src) => WritePages(v, address, src, DataWrite)
    case RestoreOp(s) => FromSnapshots(s)
  }

  /** Whether an operation moves the code epoch. */
  predicate OpMovesEpoch(v: View, op: MemoryOp)
  {
    match op
    case ReadOp(_, _, _) => false
    case WriteOp(address, src) => MovesEpoch(v, address, src)
    case _ => true
  }

  ghost predicate OpTorn(v: View, op: MemoryOp)
  {
    op.WriteOp? && Torn(v, op.address, op.src)
  }

  /** The operation is a torn write that changes code in a page seen. */
  ghost predicate OpHarms(v: View, op: MemoryOp, seen: set<nat>)
  {
    OpTorn(v, op) && exists p :: p in seen && ChangesPage(v, op.address, op.src, p)
  }

  /** The pages seen since the epoch last moved. */
  function OpSeen(v: View, op: MemoryOp, seen: set<nat>): set<nat>
  {
    if OpMovesEpoch(v, op) then {} else seen
  }

  /** An operation breaks the rule of the caches, to move the epoch or leave code alone, exactly when it is a
      torn write. */
  lemma RuleBrokenExactlyWhenTorn(v: View, op: MemoryOp)
    requires OpOk(op)
    ensures OpMovesEpoch(v, op) || SameCode(v, OpView(v, op)) <==> !OpTorn(v, op)
  {
    if op.WriteOp? { StaleExactlyWhenTorn(v, op.address, op.src); }
  }

  /** The same for the pages seen: the epoch moves or their code is left alone, unless the write is torn and has
      changed code in one of them. */
  lemma SeenBrokenExactlyWhenHarmed(v: View, op: MemoryOp, seen: set<nat>)
    requires OpOk(op)
    ensures OpMovesEpoch(v, op) || SameSeen(v, OpView(v, op), seen) <==> !OpHarms(v, op, seen)
  {
    hide Torn, MovesEpoch, WritePages, ChangesPage, SameCodePage;
    if op.WriteOp? {
      var w := WritePages(v, op.address, op.src, DataWrite);
      StaleExactlyWhenTorn(v, op.address, op.src);
      forall p: nat ensures SameCodePage(v, w, p) <==> !ChangesPage(v, op.address, op.src, p) { WritePageCode(v, op.address, op.src, p); }
    } else {
      SameItself(v, seen);
    }
  }

  // ------------------------------------------------------- the entries a write hits

  /** The bytes at rip after a write. */
  function BytesAfter(v: View, address: nat, src: seq<bv8>, rip: nat): (r: seq<bv8>)
  {
    var bytes := ReadPrefix(v, rip, MAX_INSTRUCTION_LENGTH, InstructionFetch);
    var n := |ReadPrefix(v, address, |src|, DataWrite)|;
    seq(|bytes|, k requires 0 <= k < |bytes| => if address <= rip + k < address + n then src[rip + k - address] else bytes[k])
  }

  /** An entry of the current epoch covers a byte that the write changes, and the bytes now decode otherwise. */
  ghost predicate HitsDecodeEntry(e: DecodeEntry, decode: Decoder, v: View, epoch: nat, address: nat, src: seq<bv8>)
  {
    && e.valid && e.codeEpoch == epoch
    && BytesAfter(v, address, src, e.rip) != ReadPrefix(v, e.rip, MAX_INSTRUCTION_LENGTH, InstructionFetch)
    && decode(e.mode, e.rip, BytesAfter(v, address, src, e.rip)) != Some(e.instr)
  }

  /** An entry of the current epoch is for a page in which the write changes code. */
  ghost predicate HitsCodePageEntry(e: CodePageEntry, v: View, epoch: nat, address: nat, src: seq<bv8>)
  {
    e.valid && e.codeEpoch == epoch && ChangesPage(v, address, src, e.pageBase / PAGE)
  }

  ghost predicate HitsAnEntry(d: seq<DecodeEntry>, c: seq<CodePageEntry>, decode: Decoder, v: View, epoch: nat, address: nat, src: seq<bv8>)
  {
    (exists i :: 0 <= i < |d| && HitsDecodeEntry(d[i], decode, v, epoch, address, src)) ||
    (exists i :: 0 <= i < |c| && HitsCodePageEntry(c[i], v, epoch, address, src))
  }

  lemma FetchAfter(v: View, address: nat, src: seq<bv8>, rip: nat)
    ensures ReadPrefix(WritePages(v, address, src, DataWrite), rip, MAX_INSTRUCTION_LENGTH, InstructionFetch) == BytesAfter(v, address, src, rip)
  {
    hide ReadPrefix, WritePages, ByteAt, PageOk;
    var w := WritePages(v, address, src, DataWrite);
    WritePermissions(v, address, src, DataWrite);
    SameReach(v, w, rip, MAX_INSTRUCTION_LENGTH, InstructionFetch);
    var now, after := ReadPrefix(w, rip, MAX_INSTRUCTION_LENGTH, InstructionFetch), BytesAfter(v, address, src, rip);
    forall k | 0 <= k < |now| ensures now[k] == after[k] {
      ReadBytes(v, rip, MAX_INSTRUCTION_LENGTH, InstructionFetch, k);
      ReadBytes(w, rip, MAX_INSTRUCTION_LENGTH, InstructionFetch, k);
      WriteBytes(v, address, src, DataWrite, rip + k);
    }
  }

  lemma DecodeEntryRightAfter(e: DecodeEntry, decode: Decoder, v: View, epoch: nat, seen: set<nat>, address: nat, src: seq<bv8>)
    requires DecodeEntryOk(e, decode, v, epoch, seen)
    ensures DecodeEntryOk(e, decode, WritePages(v, address, src, DataWrite), epoch, seen) <==> !HitsDecodeEntry(e, decode, v, epoch, address, src)
  {
    hide ReadPrefix, WritePages, PagesAt;
    FetchAfter(v, address, src, e.rip);
  }

  lemma CodePageEntryRightAfter(e: CodePageEntry, v: View, epoch: nat, seen: set<nat>, address: nat, src: seq<bv8>)
    requires CodePageEntryOk(e, v, epoch, seen)
    ensures CodePageEntryOk(e, WritePages(v, address, src, DataWrite), epoch, seen) <==> !HitsCodePageEntry(e, v, epoch, address, src)
  {
    hide ReadPrefix, WritePages, ChangesPage, PageOk;
    WritePageCode(v, address, src, e.pageBase / PAGE);
  }

  /** After a write that does not move the epoch the caches are right exactly when it hits no entry. */
  lemma RightExactlyWhenNoneHit(d: seq<DecodeEntry>, c: seq<CodePageEntry>, decode: Decoder, v: View, epoch: nat, seen: set<nat>, address: nat, src: seq<bv8>)
    requires Coherent(d, c, decode, v, epoch, seen)
    ensures Coherent(d, c, decode, WritePages(v, address, src, DataWrite), epoch, seen) <==> !HitsAnEntry(d, c, decode, v, epoch, address, src)
  {
    hide DecodeEntryOk, CodePageEntryOk, HitsDecodeEntry, HitsCodePageEntry, WritePages;
    forall i | 0 <= i < |d|
      ensures DecodeEntryOk(d[i], decode, WritePages(v, address, src, DataWrite), epoch, seen) <==> !HitsDecodeEntry(d[i], decode, v, epoch, address, src)
    {
      DecodeEntryRightAfter(d[i], decode, v, epoch, seen, address, src);
    }
    forall i | 0 <= i < |c|
      ensures CodePageEntryOk(c[i], WritePages(v, address, src, DataWrite), epoch, seen) <==> !HitsCodePageEntry(c[i], v, epoch, address, src)
    {
      CodePageEntryRightAfter(c[i], v, epoch, seen, address, src);
    }
  }

  /** An operation leaves the caches wrong: it does not move the epoch and hits an entry. */
  ghost predicate OpStales(d: seq<DecodeEntry>, c: seq<CodePageEntry>, decode: Decoder, v: View, epoch: nat, op: MemoryOp)
  {
    op.WriteOp? && !OpMovesEpoch(v, op) && HitsAnEntry(d, c, decode, v, epoch, op.address, op.src)
  }

  /** The caches after any operation: right exactly when it does not leave them wrong, which only a torn write that
      changes code in a page seen can do. */
  lemma RightAfter(d: seq<DecodeEntry>, c: seq<CodePageEntry>, decode: Decoder, v: View, epoch: nat, seen: set<nat>, op: MemoryOp)
    requires OpOk(op) && Coherent(d, c, decode, v, epoch, seen)
    ensures var epoch' := epoch + if OpMovesEpoch(v, op) then 1 else 0;
      (Coherent(d, c, decode, OpView(v, op), epoch', OpSeen(v, op, seen)) <==> !OpStales(d, c, decode, v, epoch, op)) &&
      (OpStales(d, c, decode, v, epoch, op) ==> OpHarms(v, op, seen))
  {
    hide Coherent, HitsAnEntry, OpHarms, SameSeen, MovesEpoch;
    SeenBrokenExactlyWhenHarmed(v, op, seen);
    var epoch' := epoch + if OpMovesEpoch(v, op) then 1 else 0;
    if OpMovesEpoch(v, op) || SameSeen(v, OpView(v, op), seen) { StaysCoherent(d, c, decode, v, epoch, OpView(v, op), epoch', seen); }
    if op.WriteOp? { RightExactlyWhenNoneHit(d, c, decode, v, epoch, seen, op.address, op.src); }
  }

  /** Runs one operation on the real memory. */
  method Apply(memory: Memory, op: MemoryOp, special: bool)
    requires memory.Valid() && OpOk(op)
    modifies memory, memory.tlb, memory.pages.Values
    ensures memory.Valid() && fresh(memory.pages.Values - old(memory.pages.Values))
    ensures memory.Contents() == OpView(old(memory.Contents()), op)
    ensures memory.codeEpoch == old(memory.codeEpoch) + if OpMovesEpoch(old(memory.Contents()), op) then 1 else 0
  {
    match op
    case MapOp(base, size, permissions) => memory.Map(base, size, permissions);
    case UnmapOp(base, size) => memory.Unmap(base, size);
    case ReprotectOp(base, size, permissions) => memory.Reprotect(base, size, permissions);
    case ReadOp(address, count, kind) => var ok, dst := memory.Read(address, count, kind, special);
    case WriteOp(address, src) => var ok := memory.Write(address, src, special);
    case RestoreOp(s) => memory.RestorePages(s);
  }

  /** A list of operations, without caches. */
  function OpsView(v: View, ops: seq<MemoryOp>): View
    decreases |ops|
  {
    if ops == [] then v else OpsView(OpView(v, ops[0]), ops[1..])
  }

  /** The pages seen after them. */
  function OpsSeen(v: View, ops: seq<MemoryOp>, seen: set<nat>): set<nat>
    decreases |ops|
  {
    if ops == [] then seen else OpsSeen(OpView(v, ops[0]), ops[1..], OpSeen(v, ops[0], seen))
  }

  /** None of the operations is a torn write that changes code in a page seen. */
  ghost predicate OpsClean(v: View, ops: seq<MemoryOp>, seen: set<nat>)
    decreases |ops|
  {
    ops == [] ||
    (OpOk(ops[0]) && !OpHarms(v, ops[0], seen) && OpsClean(OpView(v, ops[0]), ops[1..], OpSeen(v, ops[0], seen)))
  }

  // ------------------------------------------------- steps, without any cache

  datatype HookAction = Stop | Retry | RestartInstruction

  /** What the fault hooks answer, and what they do to memory and to the instruction pointer first. */
  datatype Reply = Reply(action: HookAction, ops: seq<MemoryOp>, rip: nat)

  /** One attempt of a step: whether the handler faults once the instruction is decoded, and the hooks'
      answer should there be a fault. */
  datatype Attempt = Attempt(handlerFaults: bool, reply: Reply)

  datatype Outcome =
    | Executed(rip: nat, instr: Instruction)
    | PageFault(rip: nat)
    | DecodeFault(rip: nat)
    | HandlerFault(rip: nat, instr: Instruction)
    | ExecutionLimit

  function FaultOf(r: Fetched, rip: nat): Outcome {
    match r
    case Decoded(instr) => HandlerFault(rip, instr)
    case FetchFault => PageFault(rip)
    case DecodeError => DecodeFault(rip)
  }

  predicate RipOk(rip: nat) { rip + MAX_INSTRUCTION_LENGTH <= ADDRESS_LIMIT }

  ghost predicate ScriptOk(script: seq<Attempt>) {
    |script| == MAX_FAULT_RETRIES && forall i :: 0 <= i < |script| ==> RipOk(script[i].reply.rip)
  }

  /** A step from its k-th attempt on: at most eight attempts, each after a fault that the hooks recovered. */
  function StepFrom(decode: Decoder, v: View, mode: ExecutionMode, start: nat, rip: nat, script: seq<Attempt>, k: nat): (Outcome, View)
    requires |script| == MAX_FAULT_RETRIES && k <= MAX_FAULT_RETRIES
    decreases MAX_FAULT_RETRIES - k
  {
    if k == MAX_FAULT_RETRIES then (ExecutionLimit, v)
    else
      var r := Fresh(decode, v, mode, rip);
      if r.Decoded? && !script[k].handlerFaults then (Executed(rip, r.instr), v)
      else
        var w := OpsView(v, script[k].reply.ops);
        if script[k].reply.action == Stop then (FaultOf(r, rip), w)
        else StepFrom(decode, w, mode, start, if script[k].reply.action == Retry then script[k].reply.rip else start, script, k + 1)
  }

  /** The pages seen after the attempts that the step takes. */
  function StepSeen(decode: Decoder, v: View, mode: ExecutionMode, start: nat, rip: nat, script: seq<Attempt>, k: nat, seen: set<nat>): set<nat>
    requires |script| == MAX_FAULT_RETRIES && k <= MAX_FAULT_RETRIES
    decreases MAX_FAULT_RETRIES - k
  {
    if k == MAX_FAULT_RETRIES then seen
    else
      var r, now := Fresh(decode, v, mode, rip), seen + PagesAt(rip);
      if r.Decoded? && !script[k].handlerFaults then now
      else
        var w, after := OpsView(v, script[k].reply.ops), OpsSeen(v, script[k].reply.ops, now);
        if script[k].reply.action == Stop then after
        else StepSeen(decode, w, mode, start, if script[k].reply.action == Retry then script[k].reply.rip else start, script, k + 1, after)
  }

  /** No hook makes a torn write over code seen in the attempts that the step takes. */
  ghost predicate StepClean(decode: Decoder, v: View, mode: ExecutionMode, start: nat, rip: nat, script: seq<Attempt>, k: nat, seen: set<nat>)
    requires |script| == MAX_FAULT_RETRIES && k <= MAX_FAULT_RETRIES
    decreases MAX_FAULT_RETRIES - k
  {
    k == MAX_FAULT_RETRIES ||
    var r, now := Fresh(decode, v, mode, rip), seen + PagesAt(rip);
    (r.Decoded? && !script[k].handlerFaults) ||
    (OpsClean(v, script[k].reply.ops, now) && (script[k].reply.action == Stop ||
      StepClean(decode, OpsView(v, script[k].reply.ops), mode, start,
                if script[k].reply.action == Retry then script[k].reply.rip else start, script, k + 1,
                OpsSeen(v, script[k].reply.ops, now))))
  }

  /** The state that a step from v0 has reached before its k-th attempt. */
  ghost predicate OnTrack(decode: Decoder, v0: View, mode: ExecutionMode, start: nat, script: seq<Attempt>, seen: set<nat>,
                          v: View, rip: nat, k: nat, now: set<nat>)
    requires |script| == MAX_FAULT_RETRIES && k <= MAX_FAULT_RETRIES
  {
    && StepClean(decode, v, mode, start, rip, script, k, now)
    && StepFrom(decode, v, mode, start, rip, script, k) == StepFrom(decode, v0, mode, start, start, script, 0)
    && StepSeen(decode, v, mode, start, rip, script, k, now) == StepSeen(decode, v0, mode, start, start, script, 0, seen)
  }

  /** The whole step comes to this outcome and memory, without any cache, and has seen these pages by then. */
  ghost predicate ComesTo(decode: Decoder, v0: View, mode: ExecutionMode, start: nat, script: seq<Attempt>, seen: set<nat>,
                        o: Outcome, v: View, now: set<nat>)
    requires |script| == MAX_FAULT_RETRIES
  {
    StepFrom(decode, v0, mode, start, start, script, 0) == (o, v) && StepSeen(decode, v0, mode, start, start, script, 0, seen) == now
  }

  lemma OnTrackFirst(decode: Decoder, v0: View, mode: ExecutionMode, start: nat, script: seq<Attempt>, seen: set<nat>)
    requires |script| == MAX_FAULT_RETRIES
    ensures OnTrack(decode, v0, mode, start, script, seen, v0, start, 0, seen) <==> StepClean(decode, v0, mode, start, start, script, 0, seen)
  {
    hide StepClean, StepFrom, StepSeen;
  }

  /** One attempt of a step. */
  lemma OnTrackNext(decode: Decoder, v0: View, mode: ExecutionMode, start: nat, script: seq<Attempt>, seen: set<nat>,
                    v: View, rip: nat, k: nat, before: set<nat>)
    requires |script| == MAX_FAULT_RETRIES && k < MAX_FAULT_RETRIES
    requires OnTrack(decode, v0, mode, start, script, seen, v, rip, k, before)
    ensures var r, reply, now := Fresh(decode, v, mode, rip), script[k].reply, before + PagesAt(rip);
      && (r.Decoded? && !script[k].handlerFaults ==> ComesTo(decode, v0, mode, start, script, seen, Executed(rip, r.instr), v, now))
      && (!(r.Decoded? && !script[k].handlerFaults) ==>
        && OpsClean(v, reply.ops, now)
        && (reply.action == Stop ==>
          ComesTo(decode, v0, mode, start, script, seen, FaultOf(r, rip), OpsView(v, reply.ops), OpsSeen(v, reply.ops, now)))
        && (reply.action != Stop ==>
          OnTrack(decode, v0, mode, start, script, seen, OpsView(v, reply.ops), if reply.action == Retry then reply.rip else start, k + 1,
                  OpsSeen(v, reply.ops, now))))
  {
    hide Fresh, OpsView, OpsClean, OpsSeen, PagesAt;
  }

  lemma OnTrackEnd(decode: Decoder, v0: View, mode: ExecutionMode, start: nat, script: seq<Attempt>, seen: set<nat>, v: View, rip: nat, now: set<nat>)
    requires |script| == MAX_FAULT_RETRIES
    requires OnTrack(decode, v0, mode, start, script, seen, v, rip, MAX_FAULT_RETRIES, now)
    ensures ComesTo(decode, v0, mode, start, script, seen, ExecutionLimit, v, now)
  {}

  /** A step executes only what the decoder makes of fifteen bytes that all lie in mapped pages with permission bit 4. */
  lemma {:induction false} ExecutedIsCode(decode: Decoder, v: View, mode: ExecutionMode, start: nat, rip: nat, script: seq<Attempt>, k: nat)
    requires |script| == MAX_FAULT_RETRIES && k <= MAX_FAULT_RETRIES
    ensures var (o, w) := StepFrom(decode, v, mode, start, rip, script, k);
      o.Executed? ==>
        var bytes := ReadPrefix(w, o.rip, MAX_INSTRUCTION_LENGTH, InstructionFetch);
        Granted(w, o.rip, MAX_INSTRUCTION_LENGTH, 4) && |bytes| == MAX_INSTRUCTION_LENGTH && decode(mode, o.rip, bytes) == Some(o.instr)
    decreases MAX_FAULT_RETRIES - k
  {
    hide ReadPrefix, OpsView, Granted, Allowed;
    if k < MAX_FAULT_RETRIES {
      ReadComplete(v, rip, MAX_INSTRUCTION_LENGTH, InstructionFetch);
      AllowedBits(v, rip, MAX_INSTRUCTION_LENGTH);
      var reply := script[k].reply;
      ExecutedIsCode(decode, OpsView(v, reply.ops), mode, start, if reply.action == Retry then reply.rip else start, script, k + 1);
    }
  }

  /** The outcome of an attempt that the hooks stop if it faults: a page fault exactly when one of the fifteen bytes lies
      in a page that is not mapped or has not bit 4, else a decode fault when they do not decode, else the handler's. */
  lemma StoppedAttempt(decode: Decoder, v: View, mode: ExecutionMode, start: nat, rip: nat, script: seq<Attempt>, k: nat)
    requires |script| == MAX_FAULT_RETRIES && k < MAX_FAULT_RETRIES && script[k].reply.action == Stop
    ensures var (o, w) := StepFrom(decode, v, mode, start, rip, script, k);
      && o == (if !Granted(v, rip, MAX_INSTRUCTION_LENGTH, 4) then PageFault(rip)
               else match decode(mode, rip, ReadPrefix(v, rip, MAX_INSTRUCTION_LENGTH, InstructionFetch))
                 case None => DecodeFault(rip)
                 case Some(instr) => if script[k].handlerFaults then HandlerFault(rip, instr) else Executed(rip, instr))
      && w == if o.Executed? then v else OpsView(v, script[k].reply.ops)
  {
    hide ReadPrefix, OpsView, Granted, Allowed;
    ReadComplete(v, rip, MAX_INSTRUCTION_LENGTH, InstructionFetch);
    AllowedBits(v, rip, MAX_INSTRUCTION_LENGTH);
  }

  /** After a fault that the hooks recovered the step goes on where they said: at the instruction pointer that they left,
      or at the start of the instruction. */
  lemma RecoveredAttempt(decode: Decoder, v: View, mode: ExecutionMode, start: nat, script: seq<Attempt>, instr: Instruction)
    requires |script| == MAX_FAULT_RETRIES && script[0].reply.action != Stop && !script[1].handlerFaults
    requires !Granted(v, start, MAX_INSTRUCTION_LENGTH, 4) || script[0].handlerFaults
    requires var w, rip := OpsView(v, script[0].reply.ops), if script[0].reply.action == Retry then script[0].reply.rip else start;
      Granted(w, rip, MAX_INSTRUCTION_LENGTH, 4) && decode(mode, rip, ReadPrefix(w, rip, MAX_INSTRUCTION_LENGTH, InstructionFetch)) == Some(instr)
    ensures script[0].reply.action == Retry ==>
      StepFrom(decode, v, mode, start, start, script, 0) == (Executed(script[0].reply.rip, instr), OpsView(v, script[0].reply.ops))
    ensures script[0].reply.action == RestartInstruction ==>
      StepFrom(decode, v, mode, start, start, script, 0) == (Executed(start, instr), OpsView(v, script[0].reply.ops))
  {
    hide ReadPrefix, OpsView, Granted, Allowed;
    var w, rip := OpsView(v, script[0].reply.ops), if script[0].reply.action == Retry then script[0].reply.rip else start;
    ReadComplete(v, start, MAX_INSTRUCTION_LENGTH, InstructionFetch);
    AllowedBits(v, start, MAX_INSTRUCTION_LENGTH);
    ReadComplete(w, rip, MAX_INSTRUCTION_LENGTH, InstructionFetch);
    AllowedBits(w, rip, MAX_INSTRUCTION_LENGTH);
    assert StepFrom(decode, w, mode, start, rip, script, 1) == (Executed(rip, instr), w);
  }

  /** A step whose every attempt faults and is recovered gives up after eight. */
  lemma {:induction false} EightFaults(decode: Decoder, v: View, mode: ExecutionMode, start: nat, rip: nat, script: seq<Attempt>, k: nat)
    requires |script| == MAX_FAULT_RETRIES && k <= MAX_FAULT_RETRIES
    requires forall i :: 0 <= i < |script| ==> script[i].handlerFaults && script[i].reply.action != Stop
    ensures StepFrom(decode, v, mode, start, rip, script, k).0 == ExecutionLimit
    decreases MAX_FAULT_RETRIES - k
  {
    hide Fresh, OpsView;
    if k < MAX_FAULT_RETRIES {
      var reply := script[k].reply;
      EightFaults(decode, OpsView(v, reply.ops), mode, start, if reply.action == Retry then reply.rip else start, script, k + 1);
    }
  }

  // ------------------------------------------------ whole runs, without caches

  /** Anything that happens to the machine: an operation on memory from outside, or a step. */
  datatype Event =
    | OpEvent(op: MemoryOp)
    | StepEvent(mode: ExecutionMode, rip: nat, canUseDecodeCache: bool, script: seq<Attempt>)

  ghost predicate EventOk(e: Event) {
    match e
    case OpEvent(op) => OpOk(op)
    case StepEvent(mode, rip, _, script) => RipOk(rip) && ScriptOk(script)
  }

  predicate EightAttempts(events: seq<Event>) {
    forall i :: 0 <= i < |events| && events[i].StepEvent? ==> |events[i].script| == MAX_FAULT_RETRIES
  }

  /** The outcomes of the steps of a run, and the memory it leaves, on a machine that has no caches. */
  function Run(decode: Decoder, v: View, events: seq<Event>): (seq<Outcome>, View)
    requires EightAttempts(events)
    decreases |events|
  {
    if events == [] then ([], v)
    else
      var (o, w) := match events[0]
        case OpEvent(op) => ([], OpView(v, op))
        case StepEvent(mode, rip, _, script) => var (x, y) := StepFrom(decode, v, mode, rip, rip, script, 0); ([x], y);
      var (rest, z) := Run(decode, w, events[1..]); (o + rest, z)
  }

  /** No torn write in the whole run changes code in a page from which an instruction has been fetched since the
      epoch last moved. */
  ghost predicate RunClean(decode: Decoder, v: View, events: seq<Event>, seen: set<nat>)
    requires EightAttempts(events)
    decreases |events|
  {
    events == [] ||
    match events[0]
    case OpEvent(op) =>
      OpOk(op) && !OpHarms(v, op, seen) && RunClean(decode, OpView(v, op), events[1..], OpSeen(v, op, seen))
    case StepEvent(mode, rip, _, script) =>
      StepClean(decode, v, mode, rip, rip, script, 0, seen)
      && RunClean(decode, StepFrom(decode, v, mode, rip, rip, script, 0).1, events[1..],
                  StepSeen(decode, v, mode, rip, rip, script, 0, seen))
  }

  // ---------------------------------------------------------- the executor

  function Index(rip: nat): nat { (rip / 2) % DECODE_CACHE_SIZE }

  class Executor {
    const decode: Decoder
    const decodeCache: array<DecodeEntry>
    const codePageCache: array<CodePageEntry>

    constructor (decode: Decoder)
      ensures this.decode == decode && fresh(decodeCache) && fresh(codePageCache)
      ensures forall v: View, epoch: nat, seen: set<nat> :: Coherent(decodeCache[..], codePageCache[..], decode, v, epoch, seen)
    {
      this.decode := decode;
      decodeCache := new DecodeEntry[DECODE_CACHE_SIZE](i => DecodeEntry(0, 0, Long64, false, 0, Instruction(0, 0)));
      codePageCache := new CodePageEntry[CODE_PAGE_CACHE_SIZE](i => CodePageEntry(0, 0, false, []));
    }

    ghost predicate CoherentWith(memory: Memory, seen: set<nat>)
      reads decodeCache, codePageCache, memory, memory.tlb, memory.pages.Values
    {
      memory.Valid() && Coherent(decodeCache[..], codePageCache[..], decode, memory.Contents(), memory.codeEpoch, seen)
    }

    /** The decode cache answers for the instruction at rip, rightly or not. */
    ghost predicate Hits(memory: Memory, mode: ExecutionMode, rip: nat, canUseDecodeCache: bool)
      reads decodeCache, memory, memory.tlb, memory.pages.Values
    {
      && memory.Valid() && canUseDecodeCache && decodeCache.Length == DECODE_CACHE_SIZE
      && var entry := decodeCache[Index(rip)];
         entry.valid && entry.rip == rip && entry.codeEpoch == memory.codeEpoch && entry.mode == mode
    }

    function Cached(rip: nat): Instruction
      requires decodeCache.Length == DECODE_CACHE_SIZE
      reads decodeCache
    {
      decodeCache[Index(rip)].instr
    }

    /** The entry of the code page cache for a page, read again unless it is of this page and epoch. */
    method CodePage(memory: Memory, pageBase: nat, ghost seen: set<nat>) returns (entry: CodePageEntry)
      requires CoherentWith(memory, seen) && pageBase % PAGE == 0 && pageBase / PAGE in seen
      modifies memory.tlb, codePageCache
      ensures CoherentWith(memory, seen) && CodePageEntryOk(entry, memory.Contents(), memory.codeEpoch, seen)
    {
      hide Coherent, Fresh, Executable;
      var i := (pageBase / PAGE) % CODE_PAGE_CACHE_SIZE;
      ghost var d, c, v := decodeCache[..], codePageCache[..], memory.Contents();
      CodePageEntryAt(d, c, decode, v, memory.codeEpoch, seen, i);
      entry := codePageCache[i];
      if !entry.valid || entry.pageBase != pageBase || entry.codeEpoch != memory.codeEpoch {
        var ok, page := memory.ReadCodePage(pageBase);
        entry := if ok then CodePageEntry(pageBase, memory.codeEpoch, true, page) else entry.(valid := false);
        CodePageEntryStored(d, c, decode, v, memory.codeEpoch, seen, i, entry);
        codePageCache[i] := entry;
        assert codePageCache[..] == c[i := entry];
      }
    }

    /** The bytes at rip from the code page cache, filled on a miss; `fetched` is false when the instruction
        may cross the page or the page is not executable. */
    method FetchFromPage(memory: Memory, rip: nat, ghost seen: set<nat>) returns (fetched: bool, bytes: seq<bv8>)
      requires CoherentWith(memory, seen) && PagesAt(rip) <= seen
      modifies memory.tlb, codePageCache
      ensures CoherentWith(memory, seen)
      ensures fetched ==> bytes == ReadPrefix(memory.Contents(), rip, MAX_INSTRUCTION_LENGTH, InstructionFetch) && |bytes| == MAX_INSTRUCTION_LENGTH
    {
      hide Coherent, Fresh, ReadPrefix;
      fetched, bytes := false, [];
      var pageBase, pageOffset := rip - rip % PAGE, rip % PAGE;
      if pageOffset + MAX_INSTRUCTION_LENGTH <= PAGE {
        var entry := CodePage(memory, pageBase, seen);
        if entry.valid && entry.pageBase == pageBase && entry.codeEpoch == memory.codeEpoch {
          InPage(memory.Contents(), rip);
          bytes := entry.bytes[pageOffset..pageOffset + MAX_INSTRUCTION_LENGTH];
          fetched := true;
        }
      }
    }

    /** The bytes of an instruction that is not in the decode cache. */
    method FetchBytes(memory: Memory, rip: nat, canUseDecodeCache: bool, special: bool, ghost seen: set<nat>) returns (ok: bool, bytes: seq<bv8>)
      requires CoherentWith(memory, seen) && PagesAt(rip) <= seen && rip + MAX_INSTRUCTION_LENGTH <= ADDRESS_LIMIT
      modifies memory.tlb, codePageCache
      ensures CoherentWith(memory, seen)
      ensures ok <==> |ReadPrefix(memory.Contents(), rip, MAX_INSTRUCTION_LENGTH, InstructionFetch)| == MAX_INSTRUCTION_LENGTH
      ensures ok ==> bytes == ReadPrefix(memory.Contents(), rip, MAX_INSTRUCTION_LENGTH, InstructionFetch)
    {
      hide Coherent, Fresh, ReadPrefix, Allowed;
      ok, bytes := false, [];
      if canUseDecodeCache {
        ok, bytes := FetchFromPage(memory, rip, seen);
      }
      if !ok {
        ok, bytes := memory.Read(rip, MAX_INSTRUCTION_LENGTH, InstructionFetch, special);
      }
    }

    /** One attempt at an instruction: from the decode cache on a hit, else fetched and decoded.  While the
        caches are right the result is what memory without caches gives; a hit is answered from the cache in
        any case. */
    method FetchDecode(memory: Memory, mode: ExecutionMode, rip: nat, canUseDecodeCache: bool, special: bool, ghost seen: set<nat>) returns (r: Fetched)
      requires rip + MAX_INSTRUCTION_LENGTH <= ADDRESS_LIMIT
      requires (CoherentWith(memory, seen) && PagesAt(rip) <= seen) || Hits(memory, mode, rip, canUseDecodeCache)
      modifies memory.tlb, decodeCache, codePageCache
      ensures old(CoherentWith(memory, seen)) ==> CoherentWith(memory, seen) && r == Fresh(decode, memory.Contents(), mode, rip)
      ensures old(Hits(memory, mode, rip, canUseDecodeCache)) ==> r == Decoded(old(Cached(rip)))
      ensures canUseDecodeCache && r.Decoded? ==> Hits(memory, mode, rip, canUseDecodeCache) && Cached(rip) == r.instr
    {
      hide Coherent, ReadPrefix;
      var index := Index(rip);
      CacheSize(memory, seen);
      var entry := decodeCache[index];
      if canUseDecodeCache && entry.valid && entry.rip == rip && entry.codeEpoch == memory.codeEpoch && entry.mode == mode {
        HitIsRight(memory, mode, rip, seen);
        return Decoded(entry.instr);
      }
      r := Refill(memory, mode, rip, canUseDecodeCache, special, seen);
    }

    /** A miss: fetched from memory, decoded, and stored. */
    method Refill(memory: Memory, mode: ExecutionMode, rip: nat, canUseDecodeCache: bool, special: bool, ghost seen: set<nat>) returns (r: Fetched)
      requires CoherentWith(memory, seen) && PagesAt(rip) <= seen && rip + MAX_INSTRUCTION_LENGTH <= ADDRESS_LIMIT
      modifies memory.tlb, decodeCache, codePageCache
      ensures CoherentWith(memory, seen)
      ensures r == Fresh(decode, memory.Contents(), mode, rip)
      ensures canUseDecodeCache && r.Decoded? ==> Hits(memory, mode, rip, canUseDecodeCache) && Cached(rip) == r.instr
    {
      hide Coherent, ReadPrefix;
      var index := Index(rip);
      DecodeEntryAt(decodeCache[..], codePageCache[..], decode, memory.Contents(), memory.codeEpoch, seen, index);
      var ok, bytes := FetchBytes(memory, rip, canUseDecodeCache, special, seen);
      if !ok {
        return FetchFault;
      }
      var decoded := decode(mode, rip, bytes);
      if decoded == None {
        return DecodeError;
      }
      ghost var d := decodeCache[..];
      var entry := DecodeEntry(rip, memory.codeEpoch, mode, canUseDecodeCache, LengthOf(decoded.value), decoded.value);
      DecodeEntryStored(d, codePageCache[..], decode, memory.Contents(), memory.codeEpoch, seen, index, entry);
      decodeCache[index] := entry;
      assert decodeCache[..] == d[index := entry];
      CacheSize(memory, seen);
      r := Decoded(decoded.value);
    }

    lemma CacheSize(memory: Memory, seen: set<nat>)
      ensures CoherentWith(memory, seen) ==> decodeCache.Length == DECODE_CACHE_SIZE
    {}

    lemma HitIsRight(memory: Memory, mode: ExecutionMode, rip: nat, seen: set<nat>)
      requires Hits(memory, mode, rip, true)
      ensures CoherentWith(memory, seen) ==> Decoded(Cached(rip)) == Fresh(decode, memory.Contents(), mode, rip)
    {
      hide Coherent, Fresh, ReadPrefix;
      if CoherentWith(memory, seen) {
        DecodeEntryAt(decodeCache[..], codePageCache[..], decode, memory.Contents(), memory.codeEpoch, seen, Index(rip));
      }
    }

    /** An operation on memory: the caches stay right exactly when it does not hit an entry with the epoch unmoved,
        and so in any case unless it is a torn write that changes code in a page seen. */
    method ApplyOp(memory: Memory, op: MemoryOp, special: bool, ghost seen: set<nat>)
      requires CoherentWith(memory, seen) && OpOk(op)
      modifies memory, memory.tlb, memory.pages.Values
      ensures memory.Valid() && fresh(memory.pages.Values - old(memory.pages.Values))
      ensures CoherentWith(memory, old(OpSeen(memory.Contents(), op, seen)))
        <==> !old(OpStales(decodeCache[..], codePageCache[..], decode, memory.Contents(), memory.codeEpoch, op))
      ensures !old(OpHarms(memory.Contents(), op, seen)) ==> CoherentWith(memory, old(OpSeen(memory.Contents(), op, seen)))
      ensures memory.Contents() == OpView(old(memory.Contents()), op)
    {
      hide Coherent, OpView, OpMovesEpoch, OpSeen, OpHarms, OpStales;
      ghost var v := memory.Contents();
      RightAfter(decodeCache[..], codePageCache[..], decode, v, memory.codeEpoch, seen, op);
      Apply(memory, op, special);
    }

    /** What the fault hooks do to memory. */
    method ApplyOps(memory: Memory, ops: seq<MemoryOp>, special: bool, ghost seen: set<nat>)
      requires CoherentWith(memory, seen) && OpsClean(memory.Contents(), ops, seen)
      modifies memory, memory.tlb, memory.pages.Values
      ensures CoherentWith(memory, old(OpsSeen(memory.Contents(), ops, seen))) && fresh(memory.pages.Values - old(memory.pages.Values))
      ensures memory.Contents() == OpsView(old(memory.Contents()), ops)
      decreases |ops|
    {
      hide Coherent, OpView, OpHarms, OpOk, OpSeen, OpStales;
      if ops != [] {
        ghost var now := OpSeen(memory.Contents(), ops[0], seen);
        ApplyOp(memory, ops[0], special, seen);
        ApplyOps(memory, ops[1..], special, now);
      }
    }

    /** One step: up to eight attempts at fetching, decoding and executing the instruction, each new one
        after a fault that the hooks recovered.  While the caches are right its outcome and the memory it
        leaves are those of a machine without caches. */
    method Step(memory: Memory, mode: ExecutionMode, start: nat, canUseDecodeCache: bool, script: seq<Attempt>, ghost seen: set<nat>)
      returns (outcome: Outcome, ghost now: set<nat>)
      requires RipOk(start) && ScriptOk(script) && memory.Valid()
      requires (CoherentWith(memory, seen) && StepClean(decode, memory.Contents(), mode, start, start, script, 0, seen))
            || (Hits(memory, mode, start, canUseDecodeCache) && !script[0].handlerFaults)
      modifies memory, memory.tlb, memory.pages.Values, decodeCache, codePageCache
      ensures old(CoherentWith(memory, seen) && StepClean(decode, memory.Contents(), mode, start, start, script, 0, seen)) ==>
        CoherentWith(memory, now) && fresh(memory.pages.Values - old(memory.pages.Values))
        && ComesTo(decode, old(memory.Contents()), mode, start, script, seen, outcome, memory.Contents(), now)
      ensures old(Hits(memory, mode, start, canUseDecodeCache)) && !script[0].handlerFaults ==>
        outcome == Executed(start, old(Cached(start)))
      ensures canUseDecodeCache && outcome.Executed? ==>
        Hits(memory, mode, outcome.rip, canUseDecodeCache) && Cached(outcome.rip) == outcome.instr
    {
      hide Coherent, Fresh, OpsView, OpsClean, OpsSeen, PagesAt, Index, StepFrom, StepClean, StepSeen, OnTrack, ComesTo;
      ghost var v := memory.Contents();
      ghost var clean := CoherentWith(memory, seen) && StepClean(decode, v, mode, start, start, script, 0, seen);
      ghost var hit := Hits(memory, mode, start, canUseDecodeCache);
      now := seen;
      var rip: nat := start;
      OnTrackFirst(decode, v, mode, start, script, seen);
      for attempt := 0 to MAX_FAULT_RETRIES
        invariant memory.Valid() && fresh(memory.pages.Values - old(memory.pages.Values)) && RipOk(rip)
        invariant clean ==> CoherentWith(memory, now) && OnTrack(decode, v, mode, start, script, seen, memory.Contents(), rip, attempt, now)
        invariant attempt == 0 ==> rip == start && Hits(memory, mode, start, canUseDecodeCache) == hit && (hit ==> Cached(start) == old(Cached(start)))
        invariant attempt > 0 ==> clean && (hit ==> script[0].handlerFaults)
      {
        if clean { OnTrackNext(decode, v, mode, start, script, seen, memory.Contents(), rip, attempt, now); }
        SeeMore(memory, now, now + PagesAt(rip));
        now := now + PagesAt(rip);
        var r := FetchDecode(memory, mode, rip, canUseDecodeCache, !canUseDecodeCache, now);
        if r.Decoded? && !script[attempt].handlerFaults {
          return Executed(rip, r.instr), now;
        }
        var reply := script[attempt].reply;
        ghost var w := memory.Contents();
        ApplyOps(memory, reply.ops, !canUseDecodeCache, now);
        now := OpsSeen(w, reply.ops, now);
        if reply.action == Stop {
          return FaultOf(r, rip), now;
        }
        rip := if reply.action == Retry then reply.rip else start;
      }
      OnTrackEnd(decode, v, mode, start, script, seen, memory.Contents(), rip, now);
      outcome := ExecutionLimit;
    }

    lemma SeeMore(memory: Memory, seen: set<nat>, more: set<nat>)
      requires seen <= more
      ensures CoherentWith(memory, seen) ==> CoherentWith(memory, more)
    {
      hide Coherent;
      if CoherentWith(memory, seen) { SeenMore(decodeCache[..], codePageCache[..], decode, memory.Contents(), memory.codeEpoch, seen, more); }
    }

    /** Any interleaving of memory operations and steps: the outcomes of all steps and the final memory are
        those of a machine without caches. */
    method RunEvents(memory: Memory, events: seq<Event>, ghost seen: set<nat>) returns (outcomes: seq<Outcome>, ghost now: set<nat>)
      requires CoherentWith(memory, seen) && forall i :: 0 <= i < |events| ==> EventOk(events[i])
      requires EightAttempts(events) && RunClean(decode, memory.Contents(), events, seen)
      modifies memory, memory.tlb, memory.pages.Values, decodeCache, codePageCache
      ensures CoherentWith(memory, now) && fresh(memory.pages.Values - old(memory.pages.Values))
      ensures (outcomes, memory.Contents()) == Run(decode, old(memory.Contents()), events)
      decreases |events|
    {
      hide Coherent, StepFrom, StepClean, StepSeen, OpView, OpHarms, OpSeen, OpStales;
      outcomes, now := [], seen;
      if events != [] {
        ghost var v := memory.Contents();
        match events[0] {
          case OpEvent(op) =>
            ApplyOp(memory, op, false, seen);
            now := OpSeen(v, op, seen);
          case StepEvent(mode, rip, canUseDecodeCache, script) =>
            var outcome;
            outcome, now := Step(memory, mode, rip, canUseDecodeCache, script, seen);
            outcomes := [outcome];
        }
        var rest;
        rest, now := RunEvents(memory, events[1..], now);
        outcomes := outcomes + rest;
      }
    }
  }

  lemma InPage(v: View, rip: nat)
    requires rip % PAGE + MAX_INSTRUCTION_LENGTH <= PAGE && Executable(v, rip / PAGE)
    ensures ReadPrefix(v, rip, MAX_INSTRUCTION_LENGTH, InstructionFetch) == v[rip / PAGE].data[rip % PAGE..rip % PAGE + MAX_INSTRUCTION_LENGTH]
  {
    assert Chunk(rip, MAX_INSTRUCTION_LENGTH) == MAX_INSTRUCTION_LENGTH;
    assert ReadPrefix(v, rip + MAX_INSTRUCTION_LENGTH, 0, InstructionFetch) == [];
  }

  // ------------------------------------------------------ a run that goes wrong

  /** A decoder that tells instructions apart by their last byte. */
  function LastByte(mode: ExecutionMode, rip: nat, bytes: seq<bv8>): Option<Instruction> {
    if |bytes| == MAX_INSTRUCTION_LENGTH then Some(Instruction(bytes[MAX_INSTRUCTION_LENGTH - 1] as int, 1)) else None
  }

  const LAST_RIP: nat := PAGE - MAX_INSTRUCTION_LENGTH

  /** No faults, and so no hooks. */
  function Quiet(): (script: seq<Attempt>)
    ensures ScriptOk(script) && forall i :: 0 <= i < |script| ==> !script[i].handlerFaults
  {
    seq(MAX_FAULT_RETRIES, _ => Attempt(false, Reply(Stop, [], 0)))
  }

  /** A writable and executable page, the instruction at its end, a write over the end of the page that fails
      in the page above, and the instruction again. */
  function StaleEvents(): (events: seq<Event>)
    ensures EightAttempts(events)
  {
    [OpEvent(MapOp(0, PAGE, 6)), StepEvent(Long64, LAST_RIP, true, Quiet()),
     OpEvent(WriteOp(PAGE - 1, [1, 1])), StepEvent(Long64, LAST_RIP, true, Quiet())]
  }

  function OnePageView(last: bv8): View { map[0 := Page(Zeros()[PAGE - 1 := last], 6)] }

  lemma FreshAtEnd(last: bv8)
    ensures Fresh(LastByte, OnePageView(last), Long64, LAST_RIP) == Decoded(Instruction(last as int, 1))
  {
    var v := OnePageView(last);
    assert (6 as bv8) & PERMISSION_EXECUTE != 0;
    assert LAST_RIP / PAGE == 0 && LAST_RIP % PAGE == LAST_RIP;
    InPage(v, LAST_RIP);
  }

  lemma StepAtEnd(last: bv8, seen: set<nat>)
    ensures StepFrom(LastByte, OnePageView(last), Long64, LAST_RIP, LAST_RIP, Quiet(), 0)
         == (Executed(LAST_RIP, Instruction(last as int, 1)), OnePageView(last))
    ensures StepClean(LastByte, OnePageView(last), Long64, LAST_RIP, LAST_RIP, Quiet(), 0, seen)
  {
    hide Fresh, OnePageView;
    FreshAtEnd(last);
  }

  /** The two operations on the page. */
  lemma PageOps()
    ensures OpView(map[], MapOp(0, PAGE, 6)) == OnePageView(0)
    ensures OpView(OnePageView(0), WriteOp(PAGE - 1, [1, 1])) == OnePageView(1)
    ensures !OpMovesEpoch(OnePageView(0), WriteOp(PAGE - 1, [1, 1]))
  {
    assert Zeros()[PAGE - 1 := 0] == Zeros();
    assert FirstPage(0) == 0 && LastPage(0, PAGE) == 1;
    assert MapPages(map[], 0, 0, 6) == map[];
    TornWriteExists();
    TornWriteOf();
    StaleExactlyWhenTorn(OnePageView(0), PAGE - 1, [1, 1]);
  }

  lemma TornWriteOf()
    ensures WritePages(OnePageView(0), PAGE - 1, [1, 1], DataWrite) == OnePageView(1)
  {
    var v, w := OnePageView(0), OnePageView(1);
    assert (6 as bv8) & PERMISSION_WRITE != 0;
    assert (PAGE - 1) / PAGE == 0 && (PAGE - 1) % PAGE == PAGE - 1 && PAGE / PAGE == 1;
    assert Chunk(PAGE - 1, 2) == 1 && [1 as bv8, 1][..1] == [1] && [1 as bv8, 1][1..] == [1];
    assert Patched(v[0].data, PAGE - 1, [1]) == Zeros()[PAGE - 1 := 1] by { PatchedEnd(); }
    assert PatchPage(v, 0, PAGE - 1, [1]) == w;
    assert WritePages(w, PAGE, [1], DataWrite) == w;
  }

  lemma PatchedEnd()
    ensures Patched(Zeros()[PAGE - 1 := 0], PAGE - 1, [1]) == Zeros()[PAGE - 1 := 1]
  {
    hide Zeros;
    var was, now := Patched(Zeros()[PAGE - 1 := 0], PAGE - 1, [1]), Zeros()[PAGE - 1 := 1];
    forall i | 0 <= i < PAGE ensures was[i] == now[i] {}
  }

  /** Without caches the second step sees what the write stored. */
  lemma StaleRunWithoutCaches()
    ensures Run(LastByte, map[], StaleEvents()).0
         == [Executed(LAST_RIP, Instruction(0, 1)), Executed(LAST_RIP, Instruction(1, 1))]
  {
    hide StepFrom, OpView, OnePageView, Quiet;
    PageOps();
    StepAtEnd(0, {});
    StepAtEnd(1, {});
    var e := StaleEvents();
    var step := StepEvent(Long64, LAST_RIP, true, Quiet());
    assert e[1..] == [step] + e[2..] && e[2..] == [OpEvent(WriteOp(PAGE - 1, [1, 1]))] + e[3..] && e[3..] == [step] && e[3..][1..] == [];
    assert e[1..][1..] == e[2..] && e[2..][1..] == e[3..];
    assert Run(LastByte, OnePageView(1), []) == ([], OnePageView(1));
    assert Run(LastByte, OnePageView(1), e[3..]).0 == [Executed(LAST_RIP, Instruction(1, 1))];
    assert Run(LastByte, OnePageView(0), e[2..]).0 == [Executed(LAST_RIP, Instruction(1, 1))];
  }

  /** On the real caches the second step executes the instruction that is no longer there. */
  method StaleRun() returns (outcomes: seq<Outcome>)
    ensures outcomes == [Executed(LAST_RIP, Instruction(0, 1)), Executed(LAST_RIP, Instruction(0, 1))]
    ensures outcomes != Run(LastByte, map[], StaleEvents()).0
  {
    hide Coherent, StepFrom, StepClean, StepSeen, OpView, OnePageView, OpMovesEpoch, Run, Quiet, OpHarms, OpStales;
    StaleRunWithoutCaches();
    PageOps();
    StepAtEnd(0, {});
    var memory := new Memory();
    var executor := new Executor(LastByte);
    executor.ApplyOp(memory, MapOp(0, PAGE, 6), false, {});
    var first, second;
    ghost var seen;
    first, seen := executor.Step(memory, Long64, LAST_RIP, true, Quiet(), {});
    Apply(memory, WriteOp(PAGE - 1, [1, 1]), false);
    second, seen := executor.Step(memory, Long64, LAST_RIP, true, Quiet(), {});
    outcomes := [first, second];
    assert outcomes[1] != Run(LastByte, map[], StaleEvents()).0[1];
  }

}

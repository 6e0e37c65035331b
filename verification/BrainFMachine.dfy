/** The part of the intermediate language that the BrainF compiler emits, and how it runs.
    A program is a list of basic blocks; a run is a sequence of single instructions. */
module BrainFMachine {

  type Reg = nat
  type Label = nat
  type Byte = b: int | 0 <= b < 256

  /** What can be observed of a run. */
  datatype Event = Got(c: int) | Put(c: int) | LeftTheTape

  datatype Instr =
    | Malloc(dst: Reg, size: int)
    | MemsetZero(ptr: Reg, size: int)
    | Free(ptr: Reg)
    | CallGetchar(dst: Reg)
    | CallPutchar(arg: Reg)
    | CallPuts
    | Trunc8(dst: Reg, src: Reg)
    | SExt32(dst: Reg, src: Reg)
    | Load(dst: Reg, ptr: Reg)
    | Store(src: Reg, ptr: Reg)
    | Gep(dst: Reg, ptr: Reg, offset: int)
    | Add8(dst: Reg, src: Reg, amount: int)
    | ICmpUge(dst: Reg, a: Reg, b: Reg)
    | ICmpUlt(dst: Reg, a: Reg, b: Reg)
    | Or(dst: Reg, a: Reg, b: Reg)
    | ICmpEqZero(dst: Reg, src: Reg)
    | Phi(dst: Reg, incoming: seq<(Reg, Label)>)
    | Br(target: Label)
    | CondBr(cond: Reg, ifTrue: Label, ifFalse: Label)
    | Ret

  type Block = seq<Instr>
  type Program = seq<Block>

  datatype Status = Running | Returned | Stuck

  /** Pointers into the tape array are kept as offsets from its start; alloc cells are allocated. */
  datatype Machine = Machine(block: Label, idx: nat, prev: Label, regs: map<Reg, int>, tape: map<int, int>,
                             alloc: int, input: seq<Byte>, trace: seq<Event>, status: Status)

  const ADDRESS_SPACE: int := 0x1_0000_0000_0000_0000

  /** The 64-bit address of a tape offset, when the array starts at base. */
  function Address(base: int, offset: int): int {
    (base + offset) % ADDRESS_SPACE
  }

  /** A cell that was never written holds zero. */
  function Cell(tape: map<int, int>, i: int): int {
    if i in tape then tape[i] else 0
  }

  /** Memory with size cells from start on set to zero. */
  function Cleared(tape: map<int, int>, start: int, size: int): map<int, int> {
    map i | i in tape && !(start <= i < start + size) :: tape[i]
  }

  function Bool(b: bool): int {
    if b then 1 else 0
  }

  /** getchar: the next byte, or -1 at the end of the input. */
  function GetChar(input: seq<Byte>): (int, seq<Byte>) {
    if input == [] then (-1, []) else (input[0], input[1..])
  }

  function SignExtend8(v: int): int {
    if v < 128 then v else v - 256
  }

  /** The register a phi reads when its block is entered from prev. */
  function Incoming(incoming: seq<(Reg, Label)>, prev: Label): seq<Reg> {
    if incoming == [] then []
    else if incoming[0].1 == prev then [incoming[0].0]
    else Incoming(incoming[1..], prev)
  }

  function Uses(i: Instr, prev: Label): seq<Reg> {
    match i
    case MemsetZero(p, _) => [p]
    case Free(p) => [p]
    case CallPutchar(a) => [a]
    case Trunc8(_, s) => [s]
    case SExt32(_, s) => [s]
    case Load(_, p) => [p]
    case Store(s, p) => [s, p]
    case Gep(_, p, _) => [p]
    case Add8(_, s, _) => [s]
    case ICmpUge(_, a, b) => [a, b]
    case ICmpUlt(_, a, b) => [a, b]
    case Or(_, a, b) => [a, b]
    case ICmpEqZero(_, s) => [s]
    case Phi(_, inc) => Incoming(inc, prev)
    case CondBr(c, _, _) => [c]
    case _ => []
  }

  function Define(m: Machine, dst: Reg, v: int): Machine {
    m.(idx := m.idx + 1, regs := m.regs[dst := v])
  }

  function Jump(m: Machine, target: Label): Machine {
    m.(block := target, idx := 0, prev := m.block)
  }

  predicate Defined(m: Machine, i: Instr) {
    && (forall r :: r in Uses(i, m.prev) ==> r in m.regs)
    && (i.Phi? ==> Incoming(i.incoming, m.prev) != [])
  }

  function Exec(base: int, m: Machine, i: Instr): Machine
    requires Defined(m, i)
  {
    match i
    case Malloc(dst, size) => Define(m, dst, 0).(alloc := size)
    case MemsetZero(ptr, size) => m.(idx := m.idx + 1, tape := Cleared(m.tape, m.regs[ptr], size))
    case Free(_) => m.(idx := m.idx + 1, alloc := 0)
    case CallGetchar(dst) =>
      var (c, rest) := GetChar(m.input);
      Define(m, dst, c).(input := rest, trace := m.trace + [Got(c)])
    case CallPutchar(arg) => m.(idx := m.idx + 1, trace := m.trace + [Put(m.regs[arg] % 256)])
    case CallPuts => m.(idx := m.idx + 1, trace := m.trace + [LeftTheTape])
    case Trunc8(dst, src) => Define(m, dst, m.regs[src] % 256)
    case SExt32(dst, src) => Define(m, dst, SignExtend8(m.regs[src]))
    case Load(dst, ptr) => Define(m, dst, Cell(m.tape, m.regs[ptr]))
    case Store(src, ptr) => m.(idx := m.idx + 1, tape := m.tape[m.regs[ptr] := m.regs[src]])
    case Gep(dst, ptr, k) => Define(m, dst, m.regs[ptr] + k)
    case Add8(dst, src, k) => Define(m, dst, (m.regs[src] + k) % 256)
    case ICmpUge(dst, a, b) => Define(m, dst, Bool(Address(base, m.regs[a]) >= Address(base, m.regs[b])))
    case ICmpUlt(dst, a, b) => Define(m, dst, Bool(Address(base, m.regs[a]) < Address(base, m.regs[b])))
    case Or(dst, a, b) => Define(m, dst, Bool(m.regs[a] != 0 || m.regs[b] != 0))
    case ICmpEqZero(dst, src) => Define(m, dst, Bool(m.regs[src] == 0))
    case Phi(dst, inc) => Define(m, dst, m.regs[Incoming(inc, m.prev)[0]])
    case Br(target) => Jump(m, target)
    case CondBr(c, l1, l0) => Jump(m, if m.regs[c] != 0 then l1 else l0)
    case Ret => m.(status := Returned)
  }

  predicate HasInstr(p: Program, m: Machine) {
    m.block < |p| && m.idx < |p[m.block]|
  }

  function Step(p: Program, base: int, m: Machine): Machine {
    if m.status != Running then m
    else if !HasInstr(p, m) || !Defined(m, p[m.block][m.idx]) then m.(status := Stuck)
    else Exec(base, m, p[m.block][m.idx])
  }

  function Run(p: Program, base: int, m: Machine, n: nat): Machine
    decreases n
  {
    if n == 0 then m else Run(p, base, Step(p, base, m), n - 1)
  }

  /** The instruction touches allocated cells only, and frees no more than what is allocated. */
  predicate InBounds(m: Machine, i: Instr)
    requires Defined(m, i)
  {
    match i
    case Load(_, ptr) => 0 <= m.regs[ptr] < m.alloc
    case Store(_, ptr) => 0 <= m.regs[ptr] < m.alloc
    case MemsetZero(ptr, size) => 0 <= m.regs[ptr] && m.regs[ptr] + size <= m.alloc
    case Free(ptr) => m.regs[ptr] == 0 && m.alloc > 0
    case _ => true
  }

  /** So does the next instruction. */
  predicate AccessInBounds(p: Program, m: Machine) {
    m.status == Running && HasInstr(p, m) && Defined(m, p[m.block][m.idx]) ==> InBounds(m, p[m.block][m.idx])
  }

  /** The run is over, and nothing is allocated any more. */
  predicate IsOver(m: Machine) {
    m.status == Returned && m.alloc == 0
  }

  lemma {:induction false} RunInTwo(p: Program, base: int, m: Machine, a: nat, b: nat)
    ensures Run(p, base, m, a + b) == Run(p, base, Run(p, base, m, a), b)
    decreases a
  {
    if a > 0 {
      RunInTwo(p, base, Step(p, base, m), a - 1, b);
    }
  }

  lemma {:induction false} StoppedStays(p: Program, base: int, m: Machine, n: nat)
    requires m.status != Running
    ensures Run(p, base, m, n) == m
    decreases n
  {
    if n > 0 {
      StoppedStays(p, base, m, n - 1);
    }
  }
}

/** How the emitted instructions run: one lemma for each kind of command. */
module BrainFRuns {
  import opened BrainFMachine
  import S = BrainFSource
  import opened BrainFSpec

  type Options = S.Options

  /** Where the array lies: it does not start at address zero or end at the last address. */
  ghost predicate Placed(o: Options, base: int) {
    o.bounds ==> 0 < base && 0 < o.mem < 0x8000_0000 && base + o.mem < ADDRESS_SPACE
  }

  /** The machine stands where code c ends, with its head on cell h. */
  ghost predicate At(o: Options, c: Code, m: Machine, h: int) {
    && m.status == Running
    && c.cur < |c.blocks| && m.block == c.cur && m.idx == |c.blocks[c.cur]|
    && Live(o, m, c.head, h)
  }

  /** The array is allocated. */
  ghost predicate Owns(o: Options, m: Machine) {
    ARR in m.regs && m.regs[ARR] == 0 && m.alloc == o.mem
  }

  /** The registers in use: the array, its end, and the head. */
  ghost predicate Live(o: Options, m: Machine, head: Reg, h: int) {
    && head in m.regs && m.regs[head] == h
    && Owns(o, m)
    && (o.bounds ==> ARRMAX in m.regs && m.regs[ARRMAX] == o.mem)
  }

  /** A program and where it runs.  What one step does and whether it is safe are kept as
      functions, so that runs can be joined without looking into single steps; for the same
      reason what has been emitted after each character is kept as a list, without and with
      the run that was held back. */
  datatype Env = Env(o: Options, P: Program, base: int, step: Machine -> Machine, safe: Machine -> bool,
                     specs: seq<Spec>, flushed: seq<Spec>)

  predicate Now(e: Env, m: Machine) {
    HasInstr(e.P, m)
  }

  ghost predicate EnvOk(e: Env) {
    && Placed(e.o, e.base)
    && forall m {:trigger Now(e, m)} ::
         e.step(m) == Step(e.P, e.base, m) && e.safe(m) == (e.o.bounds ==> AccessInBounds(e.P, m))
  }

  /** n instructions lead from m to m', none of them goes wrong, and what has been observed on
      the way is always among ts. */
  ghost predicate Good(e: Env, m: Machine, n: nat, m': Machine, ts: set<seq<Event>>)
    decreases n
  {
    && m.trace in ts
    && if n == 0 then m == m'
       else m.status == Running && e.safe(m) && Good(e, e.step(m), n - 1, m', ts)
  }

  lemma {:induction false} GoodJoin(e: Env, m: Machine, a: nat, m1: Machine, b: nat, m2: Machine, ts: set<seq<Event>>)
    requires Good(e, m, a, m1, ts) && Good(e, m1, b, m2, ts)
    ensures Good(e, m, a + b, m2, ts)
    decreases a
  {
    if a > 0 {
      GoodJoin(e, e.step(m), a - 1, m1, b, m2, ts);
    }
  }

  lemma {:induction false} GoodMore(e: Env, m: Machine, n: nat, m': Machine, ts: set<seq<Event>>, ts': set<seq<Event>>)
    requires Good(e, m, n, m', ts) && ts <= ts'
    ensures Good(e, m, n, m', ts')
    decreases n
  {
    if n > 0 {
      GoodMore(e, e.step(m), n - 1, m', ts, ts');
    }
  }

  /** What a good stretch says about the run. */
  lemma {:induction false} GoodIsRun(e: Env, m: Machine, n: nat, m': Machine, ts: set<seq<Event>>, k: nat)
    requires EnvOk(e) && Good(e, m, n, m', ts) && k <= n
    ensures var r := Run(e.P, e.base, m, k);
            && r.trace in ts
            && (k == n ==> r == m')
            && (k < n ==> r.status == Running && (e.o.bounds ==> AccessInBounds(e.P, r)))
    decreases k
  {
    assert Now(e, m) || !Now(e, m);
    if k > 0 {
      GoodIsRun(e, e.step(m), n - 1, m', ts, k - 1);
    }
  }

  /** One more instruction. */
  lemma Advance(e: Env, m0: Machine, n: nat, m1: Machine, ts: set<seq<Event>>, i: Instr, m2: Machine) returns (n': nat)
    requires EnvOk(e) && Good(e, m0, n, m1, ts) && m1.status == Running
    requires HasInstr(e.P, m1) && e.P[m1.block][m1.idx] == i && Defined(m1, i)
    requires e.o.bounds ==> InBounds(m1, i)
    requires m1.trace in ts && m2.trace in ts && m2 == Exec(e.base, m1, i)
    ensures n' == n + 1 && Good(e, m0, n', m2, ts)
  {
    assert Now(e, m1);
    n' := n + 1;
    assert m2 == e.step(m1);
    assert Good(e, m2, 0, m2, ts);
    assert Good(e, m1, 1, m2, ts);
    GoodJoin(e, m0, n, m1, 1, m2, ts);
  }

  /** The given instructions are found in the program from (b, i) on. */
  ghost predicate CodeAt(P: Program, b: Label, i: nat, code: seq<Instr>) {
    b < |P| && i + |code| <= |P[b]| && forall k :: 0 <= k < |code| ==> P[b][i + k] == code[k]
  }

  /** Appended code is found where the old code ended. */
  lemma AppendedCodeAt(P: Program, c: Code, blocks: seq<Block>, code: seq<Instr>)
    requires c.cur < |c.blocks| <= |blocks| && c.blocks[c.cur] + code <= blocks[c.cur]
    requires forall k :: 0 <= k < |code| ==> !code[k].Phi?
    requires Grows(blocks, P)
    ensures CodeAt(P, c.cur, |c.blocks[c.cur]|, code)
  {
  }

  /** Instruction i takes the machine from m to m', and does nothing wrong. */
  ghost predicate Does(e: Env, m: Machine, i: Instr, m': Machine) {
    && m.status == Running && Defined(m, i)
    && (e.o.bounds ==> InBounds(m, i))
    && m' == Exec(e.base, m, i)
  }

  lemma Run1(e: Env, m0: Machine, n: nat, m: Machine, ts: set<seq<Event>>, i: Instr, m': Machine)
    requires EnvOk(e) && Good(e, m0, n, m, ts) && CodeAt(e.P, m.block, m.idx, [i]) && Does(e, m, i, m')
    requires m.trace in ts && m'.trace in ts
    ensures Good(e, m0, n + 1, m', ts)
  {
    assert e.P[m.block][m.idx + 0] == [i][0];
    var _ := Advance(e, m0, n, m, ts, i, m');
  }

  lemma OneByOne(P: Program, b: Label, i: nat, i1: Instr, i2: Instr, i3: Instr)
    requires CodeAt(P, b, i, [i1, i2, i3])
    ensures CodeAt(P, b, i, [i1]) && CodeAt(P, b, i + 1, [i2]) && CodeAt(P, b, i + 2, [i3])
  {
    var code := [i1, i2, i3];
    assert P[b][i + 0] == code[0] && P[b][i + 1] == code[1] && P[b][i + 2] == code[2];
  }

  /** The second and third machine stand one and two instructions further on. */
  predicate InRow(m: Machine, m1: Machine, m2: Machine) {
    m1.block == m2.block == m.block && m1.idx == m.idx + 1 && m2.idx == m.idx + 2
  }

  lemma Run3(e: Env, m: Machine, ts: set<seq<Event>>, i1: Instr, m1: Machine, i2: Instr, m2: Machine, i3: Instr,
             m3: Machine)
    requires EnvOk(e) && CodeAt(e.P, m.block, m.idx, [i1, i2, i3])
    requires Does(e, m, i1, m1) && Does(e, m1, i2, m2) && Does(e, m2, i3, m3)
    requires InRow(m, m1, m2)
    requires m.trace in ts && m1.trace in ts && m2.trace in ts && m3.trace in ts
    ensures Good(e, m, 3, m3, ts)
  {
    OneByOne(e.P, m.block, m.idx, i1, i2, i3);
    assert Good(e, m, 0, m, ts);
    Run1(e, m, 0, m, ts, i1, m1);
    Run1(e, m, 1, m1, ts, i2, m2);
    Run1(e, m, 2, m2, ts, i3, m3);
  }

  // ---- what single instructions do

  /** The pointer in a register may be used. */
  ghost predicate Usable(e: Env, m: Machine, ptr: Reg) {
    m.status == Running && ptr in m.regs && (e.o.bounds ==> 0 <= m.regs[ptr] < m.alloc)
  }

  lemma DoesLoad(e: Env, m: Machine, dst: Reg, ptr: Reg)
    requires Usable(e, m, ptr)
    ensures Does(e, m, Load(dst, ptr), Define(m, dst, Cell(m.tape, m.regs[ptr])))
  {
  }

  lemma DoesStore(e: Env, m: Machine, src: Reg, ptr: Reg)
    requires Usable(e, m, ptr) && src in m.regs
    ensures Does(e, m, Store(src, ptr), m.(idx := m.idx + 1, tape := m.tape[m.regs[ptr] := m.regs[src]]))
  {
  }

  lemma DoesGetchar(e: Env, m: Machine, dst: Reg)
    requires m.status == Running
    ensures var (g, rest) := GetChar(m.input);
            Does(e, m, CallGetchar(dst), Define(m, dst, g).(input := rest, trace := m.trace + [Got(g)]))
  {
  }

  lemma DoesTrunc(e: Env, m: Machine, dst: Reg, src: Reg)
    requires m.status == Running && src in m.regs
    ensures Does(e, m, Trunc8(dst, src), Define(m, dst, m.regs[src] % 256))
  {
  }

  lemma DoesSExt(e: Env, m: Machine, dst: Reg, src: Reg)
    requires m.status == Running && src in m.regs
    ensures Does(e, m, SExt32(dst, src), Define(m, dst, SignExtend8(m.regs[src])))
  {
  }

  lemma DoesPutchar(e: Env, m: Machine, arg: Reg)
    requires m.status == Running && arg in m.regs
    ensures Does(e, m, CallPutchar(arg), m.(idx := m.idx + 1, trace := m.trace + [Put(m.regs[arg] % 256)]))
  {
  }

  lemma DoesAdd(e: Env, m: Machine, dst: Reg, src: Reg, k: int)
    requires m.status == Running && src in m.regs
    ensures Does(e, m, Add8(dst, src, k), Define(m, dst, (m.regs[src] + k) % 256))
  {
  }

  lemma DoesGep(e: Env, m: Machine, dst: Reg, ptr: Reg, k: int)
    requires m.status == Running && ptr in m.regs
    ensures Does(e, m, Gep(dst, ptr, k), Define(m, dst, m.regs[ptr] + k))
  {
  }

  lemma DoesUge(e: Env, m: Machine, dst: Reg, a: Reg, b: Reg)
    requires m.status == Running && a in m.regs && b in m.regs
    ensures Does(e, m, ICmpUge(dst, a, b),
                 Define(m, dst, Bool(Address(e.base, m.regs[a]) >= Address(e.base, m.regs[b]))))
  {
  }

  lemma DoesUlt(e: Env, m: Machine, dst: Reg, a: Reg, b: Reg)
    requires m.status == Running && a in m.regs && b in m.regs
    ensures Does(e, m, ICmpUlt(dst, a, b),
                 Define(m, dst, Bool(Address(e.base, m.regs[a]) < Address(e.base, m.regs[b]))))
  {
  }

  lemma DoesEqZero(e: Env, m: Machine, dst: Reg, src: Reg)
    requires m.status == Running && src in m.regs
    ensures Does(e, m, ICmpEqZero(dst, src), Define(m, dst, Bool(m.regs[src] == 0)))
  {
  }

  lemma DoesPhi(e: Env, m: Machine, phi: Instr)
    requires m.status == Running && phi.Phi? && |Incoming(phi.incoming, m.prev)| == 1
    requires Incoming(phi.incoming, m.prev)[0] in m.regs
    ensures Does(e, m, phi, Define(m, phi.dst, m.regs[Incoming(phi.incoming, m.prev)[0]]))
  {
  }

  lemma DoesCondBr(e: Env, m: Machine, c: Reg, l1: Label, l0: Label)
    requires m.status == Running && c in m.regs
    ensures Does(e, m, CondBr(c, l1, l0), Jump(m, if m.regs[c] != 0 then l1 else l0))
  {
  }

  // ---- what the instructions for each command do

  lemma RunRead(e: Env, c: Code, m: Machine, h: int) returns (n: nat, m': Machine)
    requires EnvOk(e) && CodeOk(e.o, c) && Grows(EmitRead(c).blocks, e.P)
    requires At(e.o, c, m, h) && !S.OffTape(e.o, h)
    ensures n > 0 && Good(e, m, n, m', {m.trace, m'.trace})
    ensures At(e.o, EmitRead(c), m', h)
    ensures var (g, rest) := GetChar(m.input);
            m'.tape == m.tape[h := g % 256] && m'.input == rest && m'.trace == m.trace + [Got(g)]
  {
    var r := c.next;
    AppendedCodeAt(e.P, c, EmitRead(c).blocks, [CallGetchar(r), Trunc8(r + 1, r), Store(r + 1, c.head)]);
    var m1, m2;
    m1, m2, m' := ReadSteps(e, c.head, r, m, h);
    n := 3;
    Run3(e, m, {m.trace, m'.trace}, CallGetchar(r), m1, Trunc8(r + 1, r), m2, Store(r + 1, c.head), m');
  }

  lemma ReadSteps(e: Env, head: Reg, r: Reg, m: Machine, h: int) returns (m1: Machine, m2: Machine, m3: Machine)
    requires 2 <= head < r && m.status == Running && Live(e.o, m, head, h) && !S.OffTape(e.o, h)
    ensures Does(e, m, CallGetchar(r), m1) && Does(e, m1, Trunc8(r + 1, r), m2) && Does(e, m2, Store(r + 1, head), m3)
    ensures InRow(m, m1, m2) && m1.trace == m2.trace == m3.trace && Live(e.o, m3, head, h)
    ensures var (g, rest) := GetChar(m.input);
            m3 == m.(idx := m.idx + 3, regs := m3.regs, tape := m.tape[h := g % 256], input := rest,
                     trace := m.trace + [Got(g)])
  {
    var (g, rest) := GetChar(m.input);
    m1 := Define(m, r, g).(input := rest, trace := m.trace + [Got(g)]);
    m2 := Define(m1, r + 1, g % 256);
    m3 := m2.(idx := m2.idx + 1, tape := m.tape[h := g % 256]);
    DoesGetchar(e, m, r);
    DoesTrunc(e, m1, r + 1, r);
    DoesStore(e, m2, r + 1, head);
  }

  lemma RunWrite(e: Env, c: Code, m: Machine, h: int) returns (n: nat, m': Machine)
    requires EnvOk(e) && CodeOk(e.o, c) && Grows(EmitWrite(c).blocks, e.P)
    requires At(e.o, c, m, h) && !S.OffTape(e.o, h) && 0 <= Cell(m.tape, h) < 256
    ensures n > 0 && Good(e, m, n, m', {m.trace, m'.trace})
    ensures At(e.o, EmitWrite(c), m', h)
    ensures m'.tape == m.tape && m'.input == m.input && m'.trace == m.trace + [Put(Cell(m.tape, h))]
  {
    var r, v := c.next, Cell(m.tape, h);
    AppendedCodeAt(e.P, c, EmitWrite(c).blocks, [Load(r, c.head), SExt32(r + 1, r), CallPutchar(r + 1)]);
    var m1, m2;
    m1, m2, m' := WriteSteps(e, c.head, r, m, h);
    n := 3;
    Run3(e, m, {m.trace, m'.trace}, Load(r, c.head), m1, SExt32(r + 1, r), m2, CallPutchar(r + 1), m');
  }

  lemma WriteSteps(e: Env, head: Reg, r: Reg, m: Machine, h: int) returns (m1: Machine, m2: Machine, m3: Machine)
    requires 2 <= head < r && m.status == Running && Live(e.o, m, head, h) && !S.OffTape(e.o, h)
    requires 0 <= Cell(m.tape, h) < 256
    ensures Does(e, m, Load(r, head), m1) && Does(e, m1, SExt32(r + 1, r), m2) && Does(e, m2, CallPutchar(r + 1), m3)
    ensures InRow(m, m1, m2) && m1.trace == m2.trace == m.trace && Live(e.o, m3, head, h)
    ensures m3 == m.(idx := m.idx + 3, regs := m3.regs, trace := m.trace + [Put(Cell(m.tape, h))])
  {
    var v := Cell(m.tape, h);
    m1 := Define(m, r, v);
    m2 := Define(m1, r + 1, SignExtend8(v));
    m3 := m2.(idx := m2.idx + 1, trace := m.trace + [Put(v)]);
    assert SignExtend8(v) % 256 == v;
    DoesLoad(e, m, r, head);
    DoesSExt(e, m1, r + 1, r);
    DoesPutchar(e, m2, r + 1);
  }

  lemma RunChange(e: Env, c: Code, k: int, m: Machine, h: int) returns (n: nat, m': Machine)
    requires EnvOk(e) && CodeOk(e.o, c) && Grows(EmitChange(c, k).blocks, e.P)
    requires At(e.o, c, m, h) && !S.OffTape(e.o, h)
    ensures n > 0 && Good(e, m, n, m', {m.trace})
    ensures At(e.o, EmitChange(c, k), m', h)
    ensures m'.tape == m.tape[h := (Cell(m.tape, h) + k) % 256] && m'.input == m.input && m'.trace == m.trace
  {
    var r := c.next;
    AppendedCodeAt(e.P, c, EmitChange(c, k).blocks, [Load(r, c.head), Add8(r + 1, r, k), Store(r + 1, c.head)]);
    var m1, m2;
    m1, m2, m' := ChangeSteps(e, c.head, r, k, m, h);
    n := 3;
    Run3(e, m, {m.trace}, Load(r, c.head), m1, Add8(r + 1, r, k), m2, Store(r + 1, c.head), m');
  }

  lemma ChangeSteps(e: Env, head: Reg, r: Reg, k: int, m: Machine, h: int)
    returns (m1: Machine, m2: Machine, m3: Machine)
    requires 2 <= head < r && m.status == Running && Live(e.o, m, head, h) && !S.OffTape(e.o, h)
    ensures Does(e, m, Load(r, head), m1) && Does(e, m1, Add8(r + 1, r, k), m2) && Does(e, m2, Store(r + 1, head), m3)
    ensures InRow(m, m1, m2) && m1.trace == m2.trace == m.trace && Live(e.o, m3, head, h)
    ensures m3 == m.(idx := m.idx + 3, regs := m3.regs, tape := m.tape[h := (Cell(m.tape, h) + k) % 256])
  {
    var v := Cell(m.tape, h);
    m1 := Define(m, r, v);
    m2 := Define(m1, r + 1, (v + k) % 256);
    m3 := m2.(idx := m2.idx + 1, tape := m.tape[h := (v + k) % 256]);
    DoesLoad(e, m, r, head);
    DoesAdd(e, m1, r + 1, r, k);
    DoesStore(e, m2, r + 1, head);
  }

  /** The two unsigned address comparisons notice every head off the tape, even when its address
      wraps around, as long as it moved from the tape by less than 2^31. */
  lemma ComparisonsNoticeLeaving(base: int, mem: int, h: int, k: int)
    requires 0 < base && 0 < mem < 0x8000_0000 && base + mem < ADDRESS_SPACE
    requires 0 <= h < mem && -0x8000_0000 < k < 0x8000_0000
    ensures Address(base, h + k) >= Address(base, mem) || Address(base, h + k) < Address(base, 0)
            <==> !(0 <= h + k < mem)
  {
  }

  /** A folded move without bounds checks. */
  lemma RunFreeMove(e: Env, c: Code, k: int, m: Machine, h: int) returns (n: nat, m': Machine)
    requires EnvOk(e) && CodeOk(e.o, c) && Grows(EmitMove(e.o, c, k).blocks, e.P) && !e.o.bounds
    requires At(e.o, c, m, h)
    ensures n > 0 && Good(e, m, n, m', {m.trace})
    ensures m'.tape == m.tape && m'.input == m.input && m'.trace == m.trace
    ensures At(e.o, EmitMove(e.o, c, k), m', h + k)
  {
    AppendedCodeAt(e.P, c, EmitMove(e.o, c, k).blocks, [Gep(c.next, c.head, k)]);
    m' := Define(m, c.next, h + k);
    assert Good(e, m, 0, m, {m.trace});
    assert e.P[c.cur][m.idx + 0] == Gep(c.next, c.head, k);
    n := Advance(e, m, 0, m, {m.trace}, Gep(c.next, c.head, k), m');
  }

  /** A folded move with bounds checks: on to the next block or to the error block. */
  lemma RunCheckedMove(e: Env, c: Code, k: int, m: Machine, h: int) returns (n: nat, m': Machine)
    requires EnvOk(e) && CodeOk(e.o, c) && Grows(EmitMove(e.o, c, k).blocks, e.P) && e.o.bounds
    requires At(e.o, c, m, h) && !S.OffTape(e.o, h) && -0x8000_0000 < k < 0x8000_0000
    ensures n > 0 && Good(e, m, n, m', {m.trace})
    ensures m'.tape == m.tape && m'.input == m.input && m'.trace == m.trace
    ensures !S.OffTape(e.o, h + k) ==> At(e.o, EmitMove(e.o, c, k), m', h + k)
    ensures S.OffTape(e.o, h + k) ==> m'.status == Running && m'.block == ABERROR && m'.idx == 0 && Owns(e.o, m')
  {
    var r, nextBlock := c.next, |c.blocks|;
    MoveCodeAt(e, c, k);
    var m3 := RunComparisons(e, c.head, r, k, m, h);
    n, m' := RunBranch(e, r, nextBlock, k, m, h, m3);
  }

  /** The new head is compared with both ends of the array. */
  lemma RunComparisons(e: Env, head: Reg, r: Reg, k: int, m: Machine, h: int) returns (m3: Machine)
    requires EnvOk(e) && e.o.bounds && 2 <= head < r && m.status == Running && Live(e.o, m, head, h)
    requires CodeAt(e.P, m.block, m.idx, [Gep(r, head, k), ICmpUge(r + 1, r, ARRMAX), ICmpUlt(r + 2, r, ARR)])
    ensures Good(e, m, 3, m3, {m.trace})
    ensures m3 == m.(idx := m.idx + 3, regs := m3.regs)
    ensures Live(e.o, m3, r, h + k) && r + 1 in m3.regs && r + 2 in m3.regs
    ensures m3.regs[r + 1] == Bool(Address(e.base, h + k) >= Address(e.base, e.o.mem))
    ensures m3.regs[r + 2] == Bool(Address(e.base, h + k) < Address(e.base, 0))
  {
    var m1, m2;
    m1, m2, m3 := ComparisonSteps(e, head, r, k, m, h);
    Run3(e, m, {m.trace}, Gep(r, head, k), m1, ICmpUge(r + 1, r, ARRMAX), m2, ICmpUlt(r + 2, r, ARR), m3);
  }

  lemma ComparisonSteps(e: Env, head: Reg, r: Reg, k: int, m: Machine, h: int)
    returns (m1: Machine, m2: Machine, m3: Machine)
    requires e.o.bounds && 2 <= head < r && m.status == Running && Live(e.o, m, head, h)
    ensures Does(e, m, Gep(r, head, k), m1) && Does(e, m1, ICmpUge(r + 1, r, ARRMAX), m2)
            && Does(e, m2, ICmpUlt(r + 2, r, ARR), m3)
    ensures InRow(m, m1, m2) && m1.trace == m2.trace == m.trace && m3 == m.(idx := m.idx + 3, regs := m3.regs)
    ensures Live(e.o, m3, r, h + k) && r + 1 in m3.regs && r + 2 in m3.regs
    ensures m3.regs[r + 1] == Bool(Address(e.base, h + k) >= Address(e.base, e.o.mem))
    ensures m3.regs[r + 2] == Bool(Address(e.base, h + k) < Address(e.base, 0))
  {
    m1 := Define(m, r, h + k);
    DoesGep(e, m, r, head, k);
    m2, m3 := BothComparisons(e, r, m1, h + k);
  }

  lemma BothComparisons(e: Env, r: Reg, m1: Machine, h: int) returns (m2: Machine, m3: Machine)
    requires e.o.bounds && 2 < r && m1.status == Running && Live(e.o, m1, r, h)
    ensures Does(e, m1, ICmpUge(r + 1, r, ARRMAX), m2) && Does(e, m2, ICmpUlt(r + 2, r, ARR), m3)
    ensures m2 == m1.(idx := m1.idx + 1, regs := m2.regs) && m3 == m1.(idx := m1.idx + 2, regs := m3.regs)
    ensures Live(e.o, m3, r, h) && r + 1 in m3.regs && r + 2 in m3.regs
    ensures m3.regs[r + 1] == Bool(Address(e.base, h) >= Address(e.base, e.o.mem))
    ensures m3.regs[r + 2] == Bool(Address(e.base, h) < Address(e.base, 0))
  {
    m2 := Define(m1, r + 1, Bool(Address(e.base, h) >= Address(e.base, e.o.mem)));
    m3 := Define(m2, r + 2, Bool(Address(e.base, h) < Address(e.base, 0)));
    DoesUge(e, m1, r + 1, r, ARRMAX);
    DoesUlt(e, m2, r + 2, r, ARR);
  }

  /** If either comparison holds, the error block comes next. */
  lemma RunBranch(e: Env, r: Reg, nextBlock: Label, k: int, m: Machine, h: int, m3: Machine)
    returns (n: nat, m': Machine)
    requires EnvOk(e) && e.o.bounds && !S.OffTape(e.o, h) && -0x8000_0000 < k < 0x8000_0000
    requires 2 < r && m3.status == Running && Live(e.o, m3, r, h + k) && r + 1 in m3.regs && r + 2 in m3.regs
    requires m3.regs[r + 1] == Bool(Address(e.base, h + k) >= Address(e.base, e.o.mem))
    requires m3.regs[r + 2] == Bool(Address(e.base, h + k) < Address(e.base, 0))
    requires Good(e, m, 3, m3, {m.trace}) && m3.trace == m.trace
    requires CodeAt(e.P, m3.block, m3.idx, [Or(r + 3, r + 1, r + 2)])
    requires CodeAt(e.P, m3.block, m3.idx + 1, [CondBr(r + 3, ABERROR, nextBlock)])
    ensures n == 5 && Good(e, m, n, m', {m.trace})
    ensures m'.tape == m3.tape && m'.input == m3.input && m'.trace == m.trace && m'.status == Running && m'.idx == 0
    ensures m'.block == (if S.OffTape(e.o, h + k) then ABERROR else nextBlock) && Live(e.o, m', r, h + k)
  {
    ComparisonsNoticeLeaving(e.base, e.o.mem, h, k);
    var m4 := Define(m3, r + 3, Bool(S.OffTape(e.o, h + k)));
    n, m' := 5, Jump(m4, if S.OffTape(e.o, h + k) then ABERROR else nextBlock);
    Run1(e, m, 3, m3, {m.trace}, Or(r + 3, r + 1, r + 2), m4);
    Run1(e, m, 4, m4, {m.trace}, CondBr(r + 3, ABERROR, nextBlock), m');
  }

  lemma MoveCodeAt(e: Env, c: Code, k: int)
    requires CodeOk(e.o, c) && Grows(EmitMove(e.o, c, k).blocks, e.P) && e.o.bounds
    ensures var r, i := c.next, |c.blocks[c.cur]|;
            && CodeAt(e.P, c.cur, i, [Gep(r, c.head, k), ICmpUge(r + 1, r, ARRMAX), ICmpUlt(r + 2, r, ARR)])
            && CodeAt(e.P, c.cur, i + 3, [Or(r + 3, r + 1, r + 2)])
            && CodeAt(e.P, c.cur, i + 3 + 1, [CondBr(r + 3, ABERROR, |c.blocks|)])
  {
  }

  lemma CodeSlice(P: Program, b: Label, i: nat, code: seq<Instr>, from: nat, part: seq<Instr>)
    requires CodeAt(P, b, i, code) && from + |part| <= |code| && part == code[from..from + |part|]
    ensures CodeAt(P, b, i + from, part)
  {
  }

  /** A folded move; with bounds checks it ends the run if the head has left the tape. */
  lemma RunMove(e: Env, c: Code, k: int, m: Machine, h: int) returns (n: nat, m': Machine)
    requires EnvOk(e) && CodeOk(e.o, c) && Grows(EmitMove(e.o, c, k).blocks, e.P)
    requires At(e.o, c, m, h) && !S.OffTape(e.o, h) && -0x8000_0000 < k < 0x8000_0000
    ensures n > 0 && Good(e, m, n, m', {m.trace, m'.trace})
    ensures m'.tape == m.tape && m'.input == m.input
    ensures !S.OffTape(e.o, h + k) ==> At(e.o, EmitMove(e.o, c, k), m', h + k) && m'.trace == m.trace
    ensures S.OffTape(e.o, h + k) ==> IsOver(m') && m'.trace == m.trace + [LeftTheTape]
  {
    if !e.o.bounds {
      n, m' := RunFreeMove(e, c, k, m, h);
    } else {
      n, m' := RunCheckedMove(e, c, k, m, h);
      if S.OffTape(e.o, h + k) {
        var blocks := EmitMove(e.o, c, k).blocks;
        assert blocks[END] == c.blocks[END] && blocks[ABERROR] == c.blocks[ABERROR];
        n, m' := RunError(e, blocks, m, n, m');
      }
    }
    GoodMore(e, m, n, m', if S.OffTape(e.o, h + k) then {m.trace, m'.trace} else {m.trace}, {m.trace, m'.trace});
  }

  /** The error block says so, and leads to the end. */
  lemma RunError(e: Env, blocks: seq<Block>, m: Machine, n: nat, m1: Machine) returns (n': nat, m': Machine)
    requires EnvOk(e) && |blocks| > ABERROR && Grows(blocks, e.P)
    requires blocks[ABERROR] == [CallPuts, Br(END)] && blocks[END] == [Free(ARR), Ret]
    requires m1.status == Running && m1.block == ABERROR && m1.idx == 0 && Owns(e.o, m1) && m1.trace == m.trace
    requires Good(e, m, n, m1, {m.trace})
    ensures n' > n && Good(e, m, n', m', {m.trace, m'.trace})
    ensures m'.tape == m1.tape && m'.input == m1.input && IsOver(m') && m'.trace == m.trace + [LeftTheTape]
  {
    FixedCodeAt(e.P, blocks, ABERROR);
    assert e.P[ABERROR][0 + 0] == CallPuts && e.P[ABERROR][0 + 1] == Br(END);
    var ts := {m.trace, m.trace + [LeftTheTape]};
    GoodMore(e, m, n, m1, {m.trace}, ts);
    var m2 := m1.(idx := 1, trace := m.trace + [LeftTheTape]);
    n' := Advance(e, m, n, m1, ts, CallPuts, m2);
    var m3 := Jump(m2, END);
    n' := Advance(e, m, n', m2, ts, Br(END), m3);
    n', m' := RunEnd(e, blocks, m, n', m3, ts);
  }

  lemma RunEnd(e: Env, blocks: seq<Block>, m: Machine, n: nat, m1: Machine, ts: set<seq<Event>>)
    returns (n': nat, m': Machine)
    requires EnvOk(e) && |blocks| > END && blocks[END] == [Free(ARR), Ret] && Grows(blocks, e.P)
    requires m1.status == Running && m1.block == END && m1.idx == 0 && Owns(e.o, m1) && m1.trace in ts
    requires Good(e, m, n, m1, ts)
    ensures n' > n && Good(e, m, n', m', ts)
    ensures m'.tape == m1.tape && m'.input == m1.input && IsOver(m') && m'.trace == m1.trace
  {
    FixedCodeAt(e.P, blocks, END);
    assert e.P[END][0 + 0] == Free(ARR) && e.P[END][0 + 1] == Ret;
    var m2 := m1.(idx := 1, alloc := 0);
    n' := Advance(e, m, n, m1, ts, Free(ARR), m2);
    m' := m2.(status := Returned);
    n' := Advance(e, m, n', m2, ts, Ret, m');
  }

  /** A block without phis is found in the program as it is. */
  lemma FixedCodeAt(P: Program, blocks: seq<Block>, b: Label)
    requires b < |blocks| && Grows(blocks, P) && forall k :: 0 <= k < |blocks[b]| ==> !blocks[b][k].Phi?
    ensures CodeAt(P, b, 0, blocks[b])
  {
  }

  /** Entering a phi that knows of inc: the first of its blocks that matches decides. */
  lemma IncomingPrefix(inc: seq<(Reg, Label)>, inc': seq<(Reg, Label)>, prev: Label)
    requires inc <= inc' && Incoming(inc, prev) != []
    ensures Incoming(inc', prev) == Incoming(inc, prev)
    decreases |inc|
  {
  }

  /** The blocks of a closed loop's test and of what follows it, as the program has them. */
  lemma TestBlockAt(P: Program, c: Code, f: Frame)
    requires c.cur < |c.blocks| && f.test < |c.blocks| && Grows(EmitClose(c, f).blocks, P)
    ensures var after := |c.blocks|;
            && after < |P| && |P[f.test]| >= 4 && |P[after]| >= 1
            && P[f.test][0].Phi? && P[f.test][0].dst == f.phi
            && [(f.inHead, f.inBlock), (c.head, c.cur)] <= P[f.test][0].incoming
            && P[f.test][1] == Load(c.next, f.phi)
            && P[f.test][2] == ICmpEqZero(c.next + 1, c.next)
            && P[f.test][3] == CondBr(c.next + 1, after, f.body)
            && P[after][0].Phi? && P[after][0].dst == c.next + 2 && [(f.phi, f.test)] <= P[after][0].incoming
  {
  }

  /** The head enters the test over the phi, from before the loop or from the end of its body. */
  lemma TestIncoming(c: Code, f: Frame, inc: seq<(Reg, Label)>, prev: Label)
    requires [(f.inHead, f.inBlock), (c.head, c.cur)] <= inc && f.inBlock != c.cur
    ensures prev == f.inBlock ==> Incoming(inc, prev) == [f.inHead]
    ensures prev == c.cur ==> Incoming(inc, prev) == [c.head]
  {
  }

  /** The loop test: the head arrives over the phi, its cell is loaded, and zero leaves the loop. */
  lemma RunTest(e: Env, c: Code, f: Frame, m: Machine, h: int) returns (n: nat, m': Machine)
    requires EnvOk(e) && CodeOk(e.o, c) && FrameOk(e.o, c, f) && Grows(EmitClose(c, f).blocks, e.P)
    requires m.status == Running && m.block == f.test && m.idx == 0 && !S.OffTape(e.o, h)
    requires (m.prev == f.inBlock && Live(e.o, m, f.inHead, h)) || (m.prev == c.cur && Live(e.o, m, c.head, h))
    ensures n > 0 && Good(e, m, n, m', {m.trace})
    ensures m'.tape == m.tape && m'.input == m.input && m'.trace == m.trace && m'.status == Running
    ensures Cell(m.tape, h) == 0 ==> At(e.o, EmitClose(c, f), m', h)
    ensures Cell(m.tape, h) != 0 ==> m'.block == f.body && m'.idx == 0 && Live(e.o, m', f.phi, h)
  {
    var phi := TestCode(e.P, c, f, m.prev);
    m' := RunTestBlock(e, f, phi, c.next, |c.blocks|, m, h);
    n := 4;
    if Cell(m.tape, h) == 0 {
      n, m' := RunAfterLoop(e, c, f, m, h, m', {m.trace});
    }
  }

  lemma RunTestBlock(e: Env, f: Frame, phi: Instr, r: Reg, after: Label, m: Machine, h: int) returns (m': Machine)
    requires EnvOk(e) && phi.Phi? && phi.dst == f.phi && 2 <= f.phi < r
    requires m.status == Running && m.block == f.test && m.idx == 0 && !S.OffTape(e.o, h)
    requires |Incoming(phi.incoming, m.prev)| == 1 && Live(e.o, m, Incoming(phi.incoming, m.prev)[0], h)
    requires CodeAt(e.P, f.test, 0, [phi, Load(r, f.phi), ICmpEqZero(r + 1, r)])
    requires CodeAt(e.P, f.test, 3, [CondBr(r + 1, after, f.body)])
    ensures Good(e, m, 4, m', {m.trace}) && m'.prev == f.test && m'.idx == 0
    ensures m'.tape == m.tape && m'.input == m.input && m'.trace == m.trace && m'.status == Running
    ensures m'.block == (if Cell(m.tape, h) == 0 then after else f.body) && Live(e.o, m', f.phi, h)
  {
    var m1, m2, m3;
    m1, m2, m3, m' := TestSteps(e, f, phi, r, after, m, h);
    RunTestSteps(e, m, phi, m1, Load(r, f.phi), m2, ICmpEqZero(r + 1, r), m3, CondBr(r + 1, after, f.body), m');
  }

  /** The instructions of the test block; its phi knows both ways in. */
  lemma TestCode(P: Program, c: Code, f: Frame, prev: Label) returns (phi: Instr)
    requires c.cur < |c.blocks| && f.test < |c.blocks| && f.inBlock != c.cur && Grows(EmitClose(c, f).blocks, P)
    requires prev == f.inBlock || prev == c.cur
    ensures phi.Phi? && phi.dst == f.phi
    ensures Incoming(phi.incoming, prev) == [if prev == f.inBlock then f.inHead else c.head]
    ensures CodeAt(P, f.test, 0, [phi, Load(c.next, f.phi), ICmpEqZero(c.next + 1, c.next)])
    ensures CodeAt(P, f.test, 3, [CondBr(c.next + 1, |c.blocks|, f.body)])
  {
    TestBlockAt(P, c, f);
    phi := P[f.test][0];
    TestIncoming(c, f, phi.incoming, prev);
  }

  lemma RunTestSteps(e: Env, m: Machine, i1: Instr, m1: Machine, i2: Instr, m2: Machine, i3: Instr, m3: Machine,
                     i4: Instr, m4: Machine)
    requires EnvOk(e) && CodeAt(e.P, m.block, m.idx, [i1, i2, i3]) && CodeAt(e.P, m3.block, m3.idx, [i4])
    requires Does(e, m, i1, m1) && Does(e, m1, i2, m2) && Does(e, m2, i3, m3) && Does(e, m3, i4, m4)
    requires InRow(m, m1, m2) && m1.trace == m2.trace == m3.trace == m4.trace == m.trace
    ensures Good(e, m, 4, m4, {m.trace})
  {
    Run3(e, m, {m.trace}, i1, m1, i2, m2, i3, m3);
    Run1(e, m, 3, m3, {m.trace}, i4, m4);
  }

  lemma TestSteps(e: Env, f: Frame, phi: Instr, r: Reg, after: Label, m: Machine, h: int)
    returns (m1: Machine, m2: Machine, m3: Machine, m': Machine)
    requires phi.Phi? && phi.dst == f.phi && 2 <= f.phi < r
    requires m.status == Running && !S.OffTape(e.o, h)
    requires Incoming(phi.incoming, m.prev) != [] && Live(e.o, m, Incoming(phi.incoming, m.prev)[0], h)
    requires |Incoming(phi.incoming, m.prev)| == 1
    ensures Does(e, m, phi, m1) && Does(e, m1, Load(r, f.phi), m2) && Does(e, m2, ICmpEqZero(r + 1, r), m3)
            && Does(e, m3, CondBr(r + 1, after, f.body), m')
    ensures InRow(m, m1, m2) && m3.block == m.block == m'.prev && m3.idx == m.idx + 3 && m'.idx == 0
    ensures m1.trace == m2.trace == m3.trace == m'.trace == m.trace
    ensures m'.tape == m.tape && m'.input == m.input && m'.status == Running
    ensures m'.block == if Cell(m.tape, h) == 0 then after else f.body
    ensures Live(e.o, m', f.phi, h)
  {
    var v := Cell(m.tape, h);
    m1 := Define(m, f.phi, h);
    m2 := Define(m1, r, v);
    m3 := Define(m2, r + 1, Bool(v == 0));
    m' := Jump(m3, if v == 0 then after else f.body);
    DoesPhi(e, m, phi);
    DoesLoad(e, m1, r, f.phi);
    DoesEqZero(e, m2, r + 1, r);
    DoesCondBr(e, m3, r + 1, after, f.body);
  }

  /** The block after the loop takes the head over, too. */
  lemma RunAfterLoop(e: Env, c: Code, f: Frame, m: Machine, h: int, m1: Machine, ts: set<seq<Event>>)
    returns (n: nat, m': Machine)
    requires EnvOk(e) && CodeOk(e.o, c) && FrameOk(e.o, c, f) && Grows(EmitClose(c, f).blocks, e.P)
    requires Good(e, m, 4, m1, ts) && m1.trace in ts
    requires m1.status == Running && m1.block == |c.blocks| && m1.idx == 0 && m1.prev == f.test
    requires Live(e.o, m1, f.phi, h)
    ensures n == 5 && Good(e, m, n, m', ts) && At(e.o, EmitClose(c, f), m', h)
    ensures m'.tape == m1.tape && m'.input == m1.input && m'.trace == m1.trace
  {
    var after := |c.blocks|;
    TestBlockAt(e.P, c, f);
    var phi := e.P[after][0];
    IncomingPrefix([(f.phi, f.test)], phi.incoming, f.test);
    n, m' := 5, Define(m1, c.next + 2, h);
    assert CodeAt(e.P, after, 0, [phi]);
    Run1(e, m, 4, m1, ts, phi, m');
  }
}

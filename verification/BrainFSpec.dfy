/** What the compiler has to emit, as a function of the characters seen so far: each command
    appends its instructions at once, except that a run of moves or of changes is kept back
    until another command ends it. */
module BrainFSpec {
  import opened BrainFMachine
  import opened BrainFSource

  /** The function under construction: its blocks, the insertion block, the register that holds
      the head, and the next free register. */
  datatype Code = Code(blocks: seq<Block>, cur: Label, head: Reg, next: Reg)

  /** A run of equal commands that has not been emitted yet. */
  datatype Pending = Nothing | Moves(k: int) | Changes(k: int)

  /** An open loop: its phi, the blocks of its body and of its test, and where it is entered from. */
  datatype Frame = Frame(phi: Reg, body: Label, test: Label, inHead: Reg, inBlock: Label)

  datatype Spec = Spec(code: Code, pending: Pending, frames: seq<Frame>)

  const ARR: Reg := 0
  const ARRMAX: Reg := 1
  const END: Label := 1
  const ABERROR: Label := 2

  function Header(o: Options): Code {
    var entry := [Malloc(ARR, o.mem), MemsetZero(ARR, o.mem)]
                 + (if o.bounds then [Gep(ARRMAX, ARR, o.mem)] else []) + [Gep(2, ARR, o.mem / 2)];
    var footer := [Free(ARR), Ret];
    Code([entry, footer] + (if o.bounds then [[CallPuts, Br(END)]] else []), 0, 2, 3)
  }

  function Emit(c: Code, code: seq<Instr>): Code
    requires c.cur < |c.blocks|
  {
    c.(blocks := c.blocks[c.cur := c.blocks[c.cur] + code])
  }

  function EmitRead(c: Code): Code
    requires c.cur < |c.blocks|
  {
    Emit(c, [CallGetchar(c.next), Trunc8(c.next + 1, c.next), Store(c.next + 1, c.head)]).(next := c.next + 2)
  }

  function EmitWrite(c: Code): Code
    requires c.cur < |c.blocks|
  {
    Emit(c, [Load(c.next, c.head), SExt32(c.next + 1, c.next), CallPutchar(c.next + 1)]).(next := c.next + 2)
  }

  function EmitChange(c: Code, k: int): Code
    requires c.cur < |c.blocks|
  {
    Emit(c, [Load(c.next, c.head), Add8(c.next + 1, c.next, k), Store(c.next + 1, c.head)]).(next := c.next + 2)
  }

  function EmitMove(o: Options, c: Code, k: int): Code
    requires c.cur < |c.blocks|
  {
    var h := c.next;
    if o.bounds then
      var nextBlock := |c.blocks|;
      var c1 := Emit(c, [Gep(h, c.head, k), ICmpUge(h + 1, h, ARRMAX), ICmpUlt(h + 2, h, ARR), Or(h + 3, h + 1, h + 2),
                         CondBr(h + 3, ABERROR, nextBlock)]);
      Code(c1.blocks + [[]], nextBlock, h, h + 4)
    else
      Emit(c, [Gep(h, c.head, k)]).(head := h, next := h + 1)
  }

  /** The loop that is opened where c ends. */
  function NewFrame(c: Code): Frame {
    Frame(c.next, |c.blocks| + 1, |c.blocks|, c.head, c.cur)
  }

  function EmitOpen(c: Code): Code
    requires c.cur < |c.blocks|
  {
    var f := NewFrame(c);
    Code(Emit(c, [Br(f.test)]).blocks + [[Phi(f.phi, [(c.head, c.cur)])], []], f.body, f.phi, c.next + 1)
  }

  /** The loop test, complete: where the head comes from, and where to go. */
  function TestBlock(f: Frame, outHead: Reg, outBlock: Label, cell: Reg, after: Label): Block {
    [Phi(f.phi, [(f.inHead, f.inBlock), (outHead, outBlock)]), Load(cell, f.phi), ICmpEqZero(cell + 1, cell),
     CondBr(cell + 1, after, f.body)]
  }

  function EmitClose(c: Code, f: Frame): Code
    requires c.cur < |c.blocks| && f.test < |c.blocks|
  {
    var after := |c.blocks|;
    var c1 := Emit(c, [Br(f.test)]);
    Code(c1.blocks[f.test := TestBlock(f, c.head, c.cur, c.next, after)] + [[Phi(c.next + 2, [(f.phi, f.test)])]],
         after, c.next + 2, c.next + 3)
  }

  /** What holds of the code at any time. */
  ghost predicate CodeOk(o: Options, c: Code) {
    && c.cur < |c.blocks| && c.cur != END && (o.bounds ==> c.cur != ABERROR)
    && 2 <= c.head < c.next
    && |c.blocks| > END && c.blocks[END] == [Free(ARR), Ret]
    && (o.bounds ==> |c.blocks| > ABERROR && c.blocks[ABERROR] == [CallPuts, Br(END)])
  }

  /** An open loop still awaits its test. */
  ghost predicate FrameOk(o: Options, c: Code, f: Frame) {
    && END < f.test && (o.bounds ==> ABERROR < f.test)
    && f.inBlock < f.test && f.body == f.test + 1 <= c.cur < |c.blocks|
    && 2 <= f.phi < c.next
    && c.blocks[f.test] == [Phi(f.phi, [(f.inHead, f.inBlock)])]
  }

  ghost predicate SpecOk(o: Options, s: Spec) {
    && CodeOk(o, s.code)
    && (forall i :: 0 <= i < |s.frames| ==> FrameOk(o, s.code, s.frames[i]))
    && (forall i, j :: 0 <= i < j < |s.frames| ==> s.frames[i].body < s.frames[j].test)
  }

  function Flush(o: Options, s: Spec): (s': Spec)
    requires s.code.cur < |s.code.blocks|
  {
    match s.pending
    case Nothing => s
    case Moves(k) => s.(code := EmitMove(o, s.code, k), pending := Nothing)
    case Changes(k) => s.(code := EmitChange(s.code, k), pending := Nothing)
  }

  /** A move or a change joins a pending run of its kind and ends one of the other kind. */
  function AddMove(o: Options, s: Spec, k: int): Spec
    requires s.code.cur < |s.code.blocks|
  {
    if s.pending.Moves? then s.(pending := Moves(s.pending.k + k)) else Flush(o, s).(pending := Moves(k))
  }

  function AddChange(o: Options, s: Spec, k: int): Spec
    requires s.code.cur < |s.code.blocks|
  {
    if s.pending.Changes? then s.(pending := Changes(s.pending.k + k)) else Flush(o, s).(pending := Changes(k))
  }

  /** The labels in use exist. */
  predicate Indexed(s: Spec) {
    s.code.cur < |s.code.blocks| && forall f :: f in s.frames ==> f.test < |s.code.blocks|
  }

  function Feed(o: Options, s: Spec, c: char): (s': Spec)
    requires Indexed(s)
    ensures Indexed(s')
  {
    var f := Flush(o, s);
    if c == '+' then AddChange(o, s, 1)
    else if c == '-' then AddChange(o, s, -1)
    else if c == '>' then AddMove(o, s, 1)
    else if c == '<' then AddMove(o, s, -1)
    else if c == ',' then f.(code := EmitRead(f.code))
    else if c == '.' then f.(code := EmitWrite(f.code))
    else if c == '[' then
      f.(code := EmitOpen(f.code), frames := f.frames + [NewFrame(f.code)])
    else if c == ']' && f.frames != [] then
      var n := |f.frames| - 1;
      f.(code := EmitClose(f.code, f.frames[n]), frames := f.frames[..n])
    else s
  }

  /** What has been emitted and kept back after the first p characters. */
  function SpecAt(o: Options, text: string, p: nat): (s: Spec)
    requires p <= |text|
    ensures Indexed(s)
  {
    if p == 0 then Spec(Header(o), Nothing, []) else Feed(o, SpecAt(o, text, p - 1), text[p - 1])
  }

  /** The whole program. */
  function Compile(o: Options, text: string): Program {
    Emit(Flush(o, SpecAt(o, text, |text|)).code, [Br(END)]).blocks
  }

  // ---- what each emission keeps

  /** Instructions stay, but a phi may learn of further blocks it is entered from. */
  predicate InstrGrows(a: Instr, b: Instr) {
    a == b || (a.Phi? && b.Phi? && a.dst == b.dst && a.incoming <= b.incoming)
  }

  ghost predicate BlockGrows(a: Block, b: Block) {
    |a| <= |b| && forall i :: 0 <= i < |a| ==> InstrGrows(a[i], b[i])
  }

  ghost predicate Grows(a: seq<Block>, b: seq<Block>) {
    |a| <= |b| && forall l :: 0 <= l < |a| ==> BlockGrows(a[l], b[l])
  }

  lemma GrowsTransitive(a: seq<Block>, b: seq<Block>, c: seq<Block>)
    requires Grows(a, b) && Grows(b, c)
    ensures Grows(a, c)
  {
    forall l | 0 <= l < |a|
      ensures BlockGrows(a[l], c[l])
    {
      assert BlockGrows(a[l], b[l]) && BlockGrows(b[l], c[l]);
    }
  }

  /** Only the insertion block was appended to, and new blocks were added behind the others. */
  ghost predicate Appended(c: Code, c': Code) {
    && c.cur < |c.blocks| <= |c'.blocks|
    && c.cur <= c'.cur && c.next <= c'.next
    && (forall l :: 0 <= l < |c.blocks| && l != c.cur ==> c'.blocks[l] == c.blocks[l])
    && c.blocks[c.cur] <= c'.blocks[c.cur]
  }

  lemma AppendedKeeps(o: Options, s: Spec, c': Code)
    requires SpecOk(o, s) && Appended(s.code, c') && c'.cur < |c'.blocks| && 2 <= c'.head < c'.next
    requires c'.cur == s.code.cur || |s.code.blocks| <= c'.cur
    ensures SpecOk(o, s.(code := c'))
    ensures Grows(s.code.blocks, c'.blocks)
  {
    var c := s.code;
    forall i | 0 <= i < |s.frames|
      ensures FrameOk(o, c', s.frames[i])
    {
      assert FrameOk(o, c, s.frames[i]);
    }
    forall l | 0 <= l < |c.blocks|
      ensures BlockGrows(c.blocks[l], c'.blocks[l])
    {
    }
  }

  lemma EmitReadOk(o: Options, s: Spec)
    requires SpecOk(o, s)
    ensures SpecOk(o, s.(code := EmitRead(s.code))) && Grows(s.code.blocks, EmitRead(s.code).blocks)
  {
    AppendedKeeps(o, s, EmitRead(s.code));
  }

  lemma EmitWriteOk(o: Options, s: Spec)
    requires SpecOk(o, s)
    ensures SpecOk(o, s.(code := EmitWrite(s.code))) && Grows(s.code.blocks, EmitWrite(s.code).blocks)
  {
    AppendedKeeps(o, s, EmitWrite(s.code));
  }

  lemma FlushOk(o: Options, s: Spec)
    requires SpecOk(o, s)
    ensures SpecOk(o, Flush(o, s)) && Flush(o, s).pending == Nothing && Flush(o, s).frames == s.frames
    ensures Grows(s.code.blocks, Flush(o, s).code.blocks)
  {
    AppendedKeeps(o, s, Flush(o, s).code);
  }

  lemma EmitOpenOk(o: Options, s: Spec)
    requires SpecOk(o, s)
    ensures SpecOk(o, s.(code := EmitOpen(s.code), frames := s.frames + [NewFrame(s.code)]))
    ensures Grows(s.code.blocks, EmitOpen(s.code).blocks)
  {
    var c, c', f := s.code, EmitOpen(s.code), NewFrame(s.code);
    AppendedKeeps(o, s, c');
    assert FrameOk(o, c', f);
    var fs := s.frames + [f];
    forall i | 0 <= i < |fs|
      ensures FrameOk(o, c', fs[i])
    {
      if i < |s.frames| {
        assert FrameOk(o, s.(code := c').code, s.frames[i]);
      }
    }
    forall i, j | 0 <= i < j < |fs|
      ensures fs[i].body < fs[j].test
    {
      if j == |s.frames| {
        assert FrameOk(o, c, s.frames[i]);
      }
    }
  }

  lemma EmitCloseOk(o: Options, s: Spec)
    requires SpecOk(o, s) && s.frames != []
    ensures var n := |s.frames| - 1;
            && SpecOk(o, s.(code := EmitClose(s.code, s.frames[n]), frames := s.frames[..n]))
            && Grows(s.code.blocks, EmitClose(s.code, s.frames[n]).blocks)
  {
    var n := |s.frames| - 1;
    var c, f := s.code, s.frames[n];
    assert FrameOk(o, c, f);
    var c' := EmitClose(c, f);
    forall l | 0 <= l < |c.blocks|
      ensures BlockGrows(c.blocks[l], c'.blocks[l])
      ensures l != c.cur && l != f.test ==> c'.blocks[l] == c.blocks[l]
    {
    }
    forall i | 0 <= i < n
      ensures FrameOk(o, c', s.frames[i])
    {
      assert FrameOk(o, c, s.frames[i]);
      assert s.frames[i].body < s.frames[n].test;
    }
  }

  /** A command that is not a move or a change, after what was kept back. */
  lemma FeedCommandOk(o: Options, s: Spec, c: char)
    requires SpecOk(o, s) && c in {',', '.', '[', ']'} && (c == ']' ==> s.frames != [])
    ensures SpecOk(o, Feed(o, s, c))
    ensures Grows(Flush(o, s).code.blocks, Feed(o, s, c).code.blocks)
  {
    FlushOk(o, s);
    var f := Flush(o, s);
    if c == ',' {
      EmitReadOk(o, f);
    } else if c == '.' {
      EmitWriteOk(o, f);
    } else if c == '[' {
      EmitOpenOk(o, f);
    } else {
      EmitCloseOk(o, f);
    }
  }

  lemma FeedOk(o: Options, s: Spec, c: char)
    requires SpecOk(o, s)
    ensures SpecOk(o, Feed(o, s, c))
    ensures Grows(s.code.blocks, Feed(o, s, c).code.blocks)
  {
    if c in {',', '.', '[', ']'} && (c == ']' ==> s.frames != []) {
      FeedCommandOk(o, s, c);
      FlushOk(o, s);
      GrowsTransitive(s.code.blocks, Flush(o, s).code.blocks, Feed(o, s, c).code.blocks);
    } else {
      FeedRunOk(o, s, c);
    }
  }

  lemma PendingDoesNotMatter(o: Options, s: Spec, s': Spec)
    requires SpecOk(o, s) && s'.code == s.code && s'.frames == s.frames
    ensures SpecOk(o, s')
  {
  }

  lemma FeedRunKeepsCode(o: Options, s: Spec, c: char, s': Spec)
    requires Indexed(s) && s' == Feed(o, s, c) && !(c in {',', '.', '[', ']'} && (c == ']' ==> s.frames != []))
    ensures s'.frames == s.frames && (s'.code == s.code || s'.code == Flush(o, s).code)
  {
  }

  /** A move or a change, a bracket too many, or no command. */
  lemma FeedRunOk(o: Options, s: Spec, c: char)
    requires SpecOk(o, s) && !(c in {',', '.', '[', ']'} && (c == ']' ==> s.frames != []))
    ensures SpecOk(o, Feed(o, s, c)) && Grows(s.code.blocks, Feed(o, s, c).code.blocks)
  {
    var f, s' := Flush(o, s), Feed(o, s, c);
    FlushOk(o, s);
    GrowsReflexive(s.code.blocks);
    FeedRunKeepsCode(o, s, c, s');
    PendingDoesNotMatter(o, if s'.code == s.code then s else f, s');
  }

  lemma {:induction false} SpecAtOk(o: Options, text: string, p: nat)
    requires p <= |text|
    ensures SpecOk(o, SpecAt(o, text, p))
  {
    if p > 0 {
      SpecAtOk(o, text, p - 1);
      var s := SpecAt(o, text, p - 1);
      FeedOk(o, s, text[p - 1]);
      assert SpecAt(o, text, p) == Feed(o, s, text[p - 1]);
    }
  }

  /** The blocks that exist after p characters. */
  function BlocksAt(o: Options, text: string, p: nat): seq<Block>
    requires p <= |text|
  {
    SpecAt(o, text, p).code.blocks
  }

  lemma BlocksAtStep(o: Options, text: string, p: nat, bp: seq<Block>, bq: seq<Block>)
    requires p < |text| && bp == BlocksAt(o, text, p) && bq == BlocksAt(o, text, p + 1)
    ensures Grows(bp, bq)
  {
    SpecAtOk(o, text, p);
    FeedOk(o, SpecAt(o, text, p), text[p]);
  }

  /** Everything emitted after p characters is found, in place, in what is emitted after q. */
  lemma {:induction false} BlocksAtGrow(o: Options, text: string, p: nat, q: nat, bp: seq<Block>, bq: seq<Block>)
    requires p <= q <= |text| && bp == BlocksAt(o, text, p) && bq == BlocksAt(o, text, q)
    ensures Grows(bp, bq)
    decreases q - p
  {
    if p == q {
      GrowsReflexive(bp);
    } else {
      var b := BlocksAt(o, text, q - 1);
      BlocksAtGrow(o, text, p, q - 1, bp, b);
      BlocksAtStep(o, text, q - 1, b, bq);
      GrowsTransitive(bp, b, bq);
    }
  }

  lemma GrowsReflexive(a: seq<Block>)
    ensures Grows(a, a)
  {
  }

  lemma BlocksAtGrowIntoProgram(o: Options, text: string, p: nat)
    requires p <= |text|
    ensures Grows(BlocksAt(o, text, p), Compile(o, text))
  {
    BlocksAtGrow(o, text, p, |text|, BlocksAt(o, text, p), BlocksAt(o, text, |text|));
    FlushedEndGrowsIntoProgram(o, text);
    var s := SpecAt(o, text, |text|);
    SpecAtOk(o, text, |text|);
    FlushOk(o, s);
    GrowsTransitive(BlocksAt(o, text, p), BlocksAt(o, text, |text|), Flush(o, s).code.blocks);
    GrowsTransitive(BlocksAt(o, text, p), Flush(o, s).code.blocks, Compile(o, text));
  }

  lemma FlushedEndGrowsIntoProgram(o: Options, text: string)
    ensures Grows(Flush(o, SpecAt(o, text, |text|)).code.blocks, Compile(o, text))
  {
    var s := SpecAt(o, text, |text|);
    SpecAtOk(o, text, |text|);
    FlushOk(o, s);
    var f := Flush(o, s);
    AppendedKeeps(o, f, Emit(f.code, [Br(END)]));
  }
}

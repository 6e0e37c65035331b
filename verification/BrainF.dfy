/** The compiler itself: it reads the text through a stream, keeps one symbol of lookahead, folds
    runs of equal commands, and calls itself for every loop. */
module BrainF {
  import opened BrainFMachine
  import S = BrainFSource
  import opened BrainFSpec
  import Correct = BrainFCorrect

  type Options = S.Options

  /** A symbol of the language; runs of moves and of changes carry their sum. */
  datatype Symbol = None | Read | Write | Move(value: int) | Change(value: int) | Loop | EndLoop | Eof

  /** The loop whose body is being read, if any: its phi, body and test. */
  datatype Enclosing = TopLevel | Inside(phi: Reg, oldbb: Label, testbb: Label)

  datatype Outcome = Done | ExtraClose | MissingClose

  // ---- what the symbols read so far stand for

  predicate Folds(s: Symbol) {
    s.Move? || s.Change?
  }

  predicate SameKind(s: Symbol, t: Symbol) {
    (s.Move? && t.Move?) || (s.Change? && t.Change?)
  }

  function SymbolOf(c: char): Symbol {
    match c
    case '-' => Change(-1)
    case '+' => Change(1)
    case '<' => Move(-1)
    case '>' => Move(1)
    case ',' => Read
    case '.' => Write
    case '[' => Loop
    case ']' => EndLoop
    case _ => None
  }

  /** What writing out a symbol adds to a specification. */
  function After(o: Options, s: Spec, sym: Symbol): (r: Spec)
    requires Indexed(s)
    ensures Indexed(r)
  {
    var f := Flush(o, s);
    match sym
    case None => s
    case Eof => f
    case Read => f.(code := EmitRead(f.code))
    case Write => f.(code := EmitWrite(f.code))
    case Move(k) => f.(pending := Moves(k))
    case Change(k) => f.(pending := Changes(k))
    case Loop => f.(code := EmitOpen(f.code), frames := f.frames + [NewFrame(f.code)])
    case EndLoop =>
      if f.frames == [] then s
      else
        var n := |f.frames| - 1;
        f.(code := EmitClose(f.code, f.frames[n]), frames := f.frames[..n])
  }

  lemma FeedIsAfter(o: Options, s: Spec, c: char)
    requires Indexed(s)
    ensures !Folds(SymbolOf(c)) ==> Feed(o, s, c) == After(o, s, SymbolOf(c))
    ensures SymbolOf(c).Move? && !s.pending.Moves? ==> Feed(o, s, c) == After(o, s, SymbolOf(c))
    ensures SymbolOf(c).Change? && !s.pending.Changes? ==> Feed(o, s, c) == After(o, s, SymbolOf(c))
    ensures SymbolOf(c).Move? && s.pending.Moves? ==>
              Feed(o, s, c) == s.(pending := Moves(s.pending.k + SymbolOf(c).value))
    ensures SymbolOf(c).Change? && s.pending.Changes? ==>
              Feed(o, s, c) == s.(pending := Changes(s.pending.k + SymbolOf(c).value))
  {
  }

  /** Nothing is lost: what has been written out, and then the two symbols held, make up what the
      text so far stands for, sp; a bracket that closes no loop stands for nothing. */
  ghost predicate Held(o: Options, sp: Spec, base: Spec, cur: Symbol, nxt: Symbol) {
    && base.pending == Nothing && Indexed(base) && Indexed(sp)
    && (nxt != None ==> Folds(cur))
    && (base.frames != [] || EndLoop !in {cur, nxt} ==>
          After(o, After(o, base, cur), nxt) == if Eof in {cur, nxt} then Flush(o, sp) else sp)
  }

  /** Every bracket so far has its partner, or the one just read has none. */
  ghost predicate Paired(text: string, pos: nat, top: bool, cur: Symbol, nxt: Symbol) {
    && pos <= |text|
    && if top && EndLoop in {cur, nxt} then
         pos > 0 && text[pos - 1] == ']' && S.NothingExtra(text, pos - 1) && S.Opens(text, pos - 1) == []
       else S.NothingExtra(text, pos)
  }

  lemma HeldNext(o: Options, sp: Spec, c: char, sp': Spec, base: Spec, cur: Symbol, sym: Symbol, cur': Symbol,
                 nxt': Symbol)
    requires Held(o, sp, base, cur, None) && (cur == None || Folds(cur))
    requires sym == SymbolOf(c) && sp' == Feed(o, sp, c)
    requires cur' == if sym == None then cur
                     else if cur == None then sym
                     else if cur.Move? && sym.Move? then Move(cur.value + sym.value)
                     else if cur.Change? && sym.Change? then Change(cur.value + sym.value)
                     else cur
    requires nxt' == if sym == None || cur == None || SameKind(cur, sym) then None else sym
    ensures Held(o, sp', base, cur', nxt')
  {
    FeedIsAfter(o, sp, c);
  }

  lemma HeldFrames(o: Options, sp: Spec, base: Spec, cur: Symbol)
    requires Held(o, sp, base, cur, None) && (cur in {None, Eof} || Folds(cur))
    ensures sp.frames == base.frames
  {
    assert After(o, base, cur).frames == base.frames;
  }

  lemma HeldWritten(o: Options, sp: Spec, base: Spec, cur: Symbol, nxt: Symbol, base': Spec)
    requires Held(o, sp, base, cur, nxt) && cur !in {Loop, EndLoop, Eof}
    requires base' == Flush(o, After(o, base, cur)) && (Folds(cur) ==> nxt != None)
    ensures Held(o, sp, base', nxt, None) && base'.frames == base.frames
  {
  }

  /** As many loops are open in the text as in what has been emitted. */
  lemma OpensCount(o: Options, text: string, pos: nat, fs: seq<Frame>)
    requires pos <= |text| && S.NothingExtra(text, pos) && fs == SpecAt(o, text, pos).frames
    ensures |fs| == |S.Opens(text, pos)|
  {
    var table := seq(|text| + 1, q requires 0 <= q <= |text| => Correct.FrameOfLoop(o, text, q));
    Correct.FramesMatchOpens(o, text, table, pos);
  }

  lemma PairedNext(text: string, pos: nat, top: bool, cur': Symbol, nxt': Symbol)
    requires pos < |text| && S.NothingExtra(text, pos) && top == (S.Opens(text, pos) == [])
    requires (text[pos] == ']') == (EndLoop in {cur', nxt'})
    ensures Paired(text, pos + 1, top, cur', nxt')
  {
  }

  /** What has been written explains the text so far, with the two symbols held. */
  ghost predicate Explains(o: Options, text: string, pos: nat, base: Spec, cur: Symbol, nxt: Symbol) {
    && Paired(text, pos, base.frames == [], cur, nxt)
    && Held(o, SpecAt(o, text, pos), base, cur, nxt)
    && (Eof in {cur, nxt} ==> pos == |text|)
  }

  /** One more character, when there is room for a symbol. */
  lemma ExplainsNext(o: Options, text: string, pos: nat, base: Spec, cur: Symbol, sym: Symbol, cur': Symbol,
                     nxt': Symbol)
    requires Explains(o, text, pos, base, cur, None) && (cur == None || Folds(cur))
    requires pos < |text| && sym == SymbolOf(text[pos])
    requires cur' == if sym == None then cur
                     else if cur == None then sym
                     else if cur.Move? && sym.Move? then Move(cur.value + sym.value)
                     else if cur.Change? && sym.Change? then Change(cur.value + sym.value)
                     else cur
    requires nxt' == if sym == None || cur == None || SameKind(cur, sym) then None else sym
    ensures Explains(o, text, pos + 1, base, cur', nxt')
  {
    var sp := SpecAt(o, text, pos);
    HeldNext(o, sp, text[pos], SpecAt(o, text, pos + 1), base, cur, sym, cur', nxt');
    HeldFrames(o, sp, base, cur);
    OpensCount(o, text, pos, base.frames);
    PairedNext(text, pos, base.frames == [], cur', nxt');
  }

  /** At the end of the text. */
  lemma ExplainsEof(o: Options, text: string, base: Spec, held: Symbol)
    requires Explains(o, text, |text|, base, held, None) && (held == None || Folds(held))
    ensures held == None ==> Explains(o, text, |text|, base, Eof, None)
    ensures held != None ==> Explains(o, text, |text|, base, held, Eof)
  {
  }

  /** At the end of the text every loop that is open has been begun and not ended. */
  lemma ExplainsEnd(o: Options, text: string, pos: nat, base: Spec)
    requires Explains(o, text, pos, base, Eof, None)
    ensures S.NothingExtra(text, |text|) && (base.frames == [] <==> S.Opens(text, |text|) == [])
    ensures base == Flush(o, SpecAt(o, text, |text|))
  {
    HeldFrames(o, SpecAt(o, text, pos), base, Eof);
    OpensCount(o, text, pos, base.frames);
  }

  /** Writing out the first symbol moves it from what is held to what has been written. */
  lemma ExplainsWritten(o: Options, text: string, pos: nat, base: Spec, cur: Symbol, nxt: Symbol, base': Spec)
    requires Explains(o, text, pos, base, cur, nxt) && cur !in {Loop, EndLoop, Eof}
    requires base' == Flush(o, After(o, base, cur)) && (Folds(cur) ==> nxt != None)
    ensures Explains(o, text, pos, base', nxt, None)
  {
    HeldWritten(o, SpecAt(o, text, pos), base, cur, nxt, base');
  }

  lemma LoopOpened(o: Options, text: string, pos: nat, base: Spec, base': Spec)
    requires SpecOk(o, base) && Explains(o, text, pos, base, Loop, None)
    requires base' == base.(code := EmitOpen(base.code), frames := base.frames + [NewFrame(base.code)])
    ensures SpecOk(o, base') && Explains(o, text, pos, base', None, None)
  {
    EmitOpenOk(o, base);
  }

  lemma HeldClosed(o: Options, sp: Spec, base: Spec, base': Spec)
    requires base.frames != [] && Held(o, sp, base, EndLoop, None)
    requires base' == base.(code := EmitClose(base.code, base.frames[|base.frames| - 1]),
                            frames := base.frames[..|base.frames| - 1])
    ensures Held(o, sp, base', None, None)
  {
    assert base' == After(o, base, EndLoop);
  }

  lemma LoopClosed(o: Options, text: string, pos: nat, base: Spec, base': Spec)
    requires SpecOk(o, base) && base.frames != [] && Explains(o, text, pos, base, EndLoop, None)
    requires base' == base.(code := EmitClose(base.code, base.frames[|base.frames| - 1]),
                            frames := base.frames[..|base.frames| - 1])
    ensures SpecOk(o, base') && Explains(o, text, pos, base', None, None)
  {
    EmitCloseOk(o, base);
    HeldClosed(o, SpecAt(o, text, pos), base, base');
  }

  class Compiler {
    const o: Options
    const text: string
    var pos: nat
    var blocks: seq<Block>
    var insertBlock: Label
    var curhead: Reg
    var nextReg: Reg

    ghost function Code(): Code
      reads this
    {
      BrainFSpec.Code(blocks, insertBlock, curhead, nextReg)
    }

    /** The emitted code with the loops that are open. */
    ghost function Written(frames: seq<Frame>): Spec
      reads this
    {
      Spec(Code(), Nothing, frames)
    }

    /** The builder is in a state that the text so far explains. */
    ghost predicate Explained(frames: seq<Frame>, cur: Symbol, nxt: Symbol)
      reads this
    {
      SpecOk(o, Written(frames)) && Explains(o, text, pos, Written(frames), cur, nxt)
    }

    predicate Look(p: nat) {
      true
    }

    /** The same, for those who only pass it on: it is not looked into unless one asks for Look. */
    ghost predicate Stands(frames: seq<Frame>, cur: Symbol, nxt: Symbol)
      reads this
    {
      && pos <= |text|
      && forall p: nat {:trigger Look(p)} :: Look(p) && p == pos ==> Explained(frames, cur, nxt)
    }

    constructor (o: Options, text: string)
      ensures this.o == o && this.text == text && pos == 0
    {
      this.o, this.text, pos := o, text, 0;
      blocks, insertBlock, curhead, nextReg := [[]], 0, 0, 0;
    }

    /** Appends to the insertion block. */
    method Insert(i: Instr)
      requires insertBlock < |blocks|
      modifies this`blocks
      ensures blocks == old(blocks)[insertBlock := old(blocks)[insertBlock] + [i]]
    {
      blocks := blocks[insertBlock := blocks[insertBlock] + [i]];
    }

    method NewReg() returns (r: Reg)
      modifies this`nextReg
      ensures r == old(nextReg) && nextReg == r + 1
    {
      r, nextReg := nextReg, nextReg + 1;
    }

    method NewBlock() returns (l: Label)
      modifies this`blocks
      ensures l == |old(blocks)| && blocks == old(blocks) + [[]]
    {
      l, blocks := |blocks|, blocks + [[]];
    }

    method Header()
      modifies this
      ensures Code() == BrainFSpec.Header(o) && pos == old(pos)
    {
      blocks, insertBlock, curhead, nextReg := [[]], 0, 0, 2;
      Insert(Malloc(ARR, o.mem));
      Insert(MemsetZero(ARR, o.mem));
      if o.bounds {
        Insert(Gep(ARRMAX, ARR, o.mem));
      }
      curhead := NewReg();
      Insert(Gep(curhead, ARR, o.mem / 2));
      var endbb := NewBlock();
      blocks := blocks[endbb := [Free(ARR), Ret]];
      if o.bounds {
        var aberrorbb := NewBlock();
        blocks := blocks[aberrorbb := [CallPuts, Br(END)]];
      }
      assert blocks[0] == BrainFSpec.Header(o).blocks[0];
      assert blocks == BrainFSpec.Header(o).blocks;
    }

    method WriteRead()
      requires insertBlock < |blocks|
      modifies this
      ensures Code() == EmitRead(old(Code())) && pos == old(pos)
    {
      ghost var c := Code();
      var tape0 := NewReg();
      Insert(CallGetchar(tape0));
      var tape1 := NewReg();
      Insert(Trunc8(tape1, tape0));
      Insert(Store(tape1, curhead));
      assert blocks[c.cur] == c.blocks[c.cur] + [CallGetchar(tape0), Trunc8(tape1, tape0), Store(tape1, c.head)];
      assert blocks == EmitRead(c).blocks;
    }

    method WriteWrite()
      requires insertBlock < |blocks|
      modifies this
      ensures Code() == EmitWrite(old(Code())) && pos == old(pos)
    {
      ghost var c := Code();
      var tape0 := NewReg();
      Insert(Load(tape0, curhead));
      var tape1 := NewReg();
      Insert(SExt32(tape1, tape0));
      Insert(CallPutchar(tape1));
      assert blocks[c.cur] == c.blocks[c.cur] + [Load(tape0, c.head), SExt32(tape1, tape0), CallPutchar(tape1)];
      assert blocks == EmitWrite(c).blocks;
    }

    method WriteChange(curvalue: int)
      requires insertBlock < |blocks|
      modifies this
      ensures Code() == EmitChange(old(Code()), curvalue) && pos == old(pos)
    {
      ghost var c := Code();
      var tape0 := NewReg();
      Insert(Load(tape0, curhead));
      var tape1 := NewReg();
      Insert(Add8(tape1, tape0, curvalue));
      Insert(Store(tape1, curhead));
      assert blocks[c.cur] == c.blocks[c.cur] + [Load(tape0, c.head), Add8(tape1, tape0, curvalue),
                                                 Store(tape1, c.head)];
      assert blocks == EmitChange(c, curvalue).blocks;
    }

    method WriteMove(curvalue: int)
      requires insertBlock < |blocks|
      modifies this
      ensures Code() == EmitMove(o, old(Code()), curvalue) && pos == old(pos)
    {
      ghost var c := Code();
      var head := NewReg();
      Insert(Gep(head, curhead, curvalue));
      curhead := head;
      if o.bounds {
        WriteBoundsCheck();
        assert blocks[c.cur] == c.blocks[c.cur]
          + [Gep(head, c.head, curvalue), ICmpUge(head + 1, head, ARRMAX), ICmpUlt(head + 2, head, ARR),
             Or(head + 3, head + 1, head + 2), CondBr(head + 3, ABERROR, |c.blocks|)];
        assert blocks == EmitMove(o, c, curvalue).blocks;
      }
    }

    method WriteBoundsCheck()
      requires insertBlock < |blocks|
      modifies this
      ensures pos == old(pos) && curhead == old(curhead) && nextReg == old(nextReg) + 3
      ensures insertBlock == |old(blocks)|
      ensures var t, was := old(nextReg), old(blocks);
              blocks == was[old(insertBlock) := was[old(insertBlock)]
                               + [ICmpUge(t, curhead, ARRMAX), ICmpUlt(t + 1, curhead, ARR), Or(t + 2, t, t + 1),
                                  CondBr(t + 2, ABERROR, |was|)]] + [[]]
    {
      ghost var c := Code();
      var test0 := NewReg();
      Insert(ICmpUge(test0, curhead, ARRMAX));
      var test1 := NewReg();
      Insert(ICmpUlt(test1, curhead, ARR));
      var test2 := NewReg();
      Insert(Or(test2, test0, test1));
      var nextbb := NewBlock();
      Insert(CondBr(test2, ABERROR, nextbb));
      insertBlock := nextbb;
      assert blocks[c.cur] == c.blocks[c.cur]
        + [ICmpUge(test0, c.head, ARRMAX), ICmpUlt(test1, c.head, ARR), Or(test2, test0, test1),
           CondBr(test2, ABERROR, nextbb)];
    }

    /** Begins a loop: the test gets one half of its phi, the body comes next. */
    method OpenLoop() returns (loop: Enclosing)
      requires insertBlock < |blocks|
      modifies this
      ensures Code() == EmitOpen(old(Code())) && pos == old(pos)
      ensures var f := NewFrame(old(Code()));
              loop == Inside(f.phi, f.body, f.test)
    {
      var testbb := NewBlock();
      Insert(Br(testbb));
      var bb0 := insertBlock;
      var bb1 := NewBlock();
      insertBlock := bb1;
      var phi := NewReg();
      blocks := blocks[testbb := [Phi(phi, [(curhead, bb0)])]];
      curhead := phi;
      loop := Inside(phi, bb1, testbb);
    }

    /** Ends a loop: the phi gets its other half, and the test is written. */
    method CloseLoop(loop: Enclosing, ghost f: Frame)
      requires loop == Inside(f.phi, f.body, f.test)
      requires CodeOk(o, Code()) && FrameOk(o, Code(), f)
      modifies this
      ensures Code() == EmitClose(old(Code()), f) && pos == old(pos)
    {
      ghost var c := Code();
      Insert(Br(loop.testbb));
      var phi := blocks[loop.testbb][0];
      phi := phi.(incoming := phi.incoming + [(curhead, insertBlock)]);
      assert phi.incoming == [(f.inHead, f.inBlock), (c.head, c.cur)];
      var tape0 := NewReg();
      var test0 := NewReg();
      var bb0 := NewBlock();
      blocks := blocks[loop.testbb := [phi, Load(tape0, phi.dst), ICmpEqZero(test0, tape0),
                                       CondBr(test0, bb0, loop.oldbb)]];
      insertBlock := bb0;
      var phi1 := NewReg();
      Insert(Phi(phi1, [(phi.dst, loop.testbb)]));
      curhead := phi1;
      assert blocks[f.test] == TestBlock(f, c.head, c.cur, c.next, bb0);
      assert blocks[bb0] == [Phi(c.next + 2, [(f.phi, f.test)])];
      assert blocks == EmitClose(c, f).blocks;
    }

    /** Writes out a command that is no bracket. */
    method WriteCommand(cursym: Symbol, ghost nextsym: Symbol, ghost frames: seq<Frame>)
      requires Explained(frames, cursym, nextsym) && cursym !in {Loop, EndLoop, Eof}
      requires Folds(cursym) ==> nextsym != None
      modifies this
      ensures Explained(frames, nextsym, None) && pos == old(pos)
      ensures Written(frames) == Flush(o, After(o, old(Written(frames)), cursym))
    {
      ghost var before := Written(frames);
      match cursym {
        case None =>
        case Read => EmitReadOk(o, before); WriteRead();
        case Write => EmitWriteOk(o, before); WriteWrite();
        case Move(k) => FlushOk(o, before.(pending := Moves(k))); WriteMove(k);
        case Change(k) => FlushOk(o, before.(pending := Changes(k))); WriteChange(k);
      }
      ExplainsWritten(o, text, pos, before, cursym, nextsym, Written(frames));
    }

    /** A new symbol joins the symbol held, takes its place, or has to wait. */
    method TakeSymbol(held: Symbol, sym: Symbol) returns (cursym: Symbol, nextsym: Symbol, loop: bool)
      requires held == None || Folds(held)
      ensures cursym == if sym == None then held
                        else if held == None then sym
                        else if held.Move? && sym.Move? then Move(held.value + sym.value)
                        else if held.Change? && sym.Change? then Change(held.value + sym.value)
                        else held
      ensures nextsym == if sym == None || held == None || SameKind(held, sym) then None else sym
      ensures loop <==> nextsym == None && (cursym == None || Folds(cursym))
    {
      cursym, nextsym, loop := held, None, true;
      if sym.Move? && cursym.Move? {
        cursym := Move(cursym.value + sym.value);
      } else if sym.Change? && cursym.Change? {
        cursym := Change(cursym.value + sym.value);
      } else if sym != None {
        if cursym == None {
          cursym := sym;
          loop := Folds(sym);
        } else {
          nextsym := sym;
          loop := false;
        }
      }
    }

    /** What has been written explains the text up to p, but this is not looked into. */
    ghost predicate Fits(p: nat, base: Spec, cur: Symbol, nxt: Symbol) {
      forall u: nat {:trigger Look(u)} :: Look(u) ==> Explains(o, text, p, base, cur, nxt)
    }

    lemma FitsNext(p: nat, base: Spec, cur: Symbol, sym: Symbol, cur': Symbol, nxt': Symbol)
      requires Fits(p, base, cur, None) && (cur == None || Folds(cur))
      requires p < |text| && sym == SymbolOf(text[p])
      requires cur' == if sym == None then cur
                       else if cur == None then sym
                       else if cur.Move? && sym.Move? then Move(cur.value + sym.value)
                       else if cur.Change? && sym.Change? then Change(cur.value + sym.value)
                       else cur
      requires nxt' == if sym == None || cur == None || SameKind(cur, sym) then None else sym
      ensures Fits(p + 1, base, cur', nxt')
    {
      assert Look(p);
      ExplainsNext(o, text, p, base, cur, sym, cur', nxt');
    }

    lemma FitsEof(base: Spec, held: Symbol)
      requires Fits(|text|, base, held, None) && (held == None || Folds(held))
      ensures held == None ==> Fits(|text|, base, Eof, None)
      ensures held != None ==> Fits(|text|, base, held, Eof)
    {
      assert Look(0);
      ExplainsEof(o, text, base, held);
    }

    lemma FitsIs(p: nat, base: Spec, cur: Symbol, nxt: Symbol)
      ensures Fits(p, base, cur, nxt) <==> Explains(o, text, p, base, cur, nxt)
      ensures Fits(p, base, cur, nxt) ==> p <= |text|
    {
      assert Look(0);
    }

    /** Reads one character, if there is one. */
    method ReadSymbol(held: Symbol, ghost base: Spec) returns (cursym: Symbol, nextsym: Symbol, loop: bool)
      requires Fits(pos, base, held, None) && pos <= |text| && (held == None || Folds(held))
      modifies this`pos
      ensures Fits(pos, base, cursym, nextsym) && pos <= |text|
      ensures loop <==> nextsym == None && (cursym == None || Folds(cursym))
      ensures cursym == held || held == None || SameKind(held, cursym)
      ensures if pos == old(pos) then (cursym, nextsym) == (if held == None then (Eof, None) else (held, Eof))
              else pos == old(pos) + 1 && cursym != Eof
    {
      if pos == |text| {
        FitsEof(base, held);
        cursym, nextsym, loop := held, None, false;
        if cursym == None {
          cursym := Eof;
        } else {
          nextsym := Eof;
        }
      } else {
        var sym := SymbolOf(text[pos]);
        cursym, nextsym, loop := TakeSymbol(held, sym);
        FitsNext(pos, base, held, sym, cursym, nextsym);
        pos := pos + 1;
      }
    }

    /** Reads on until the current symbol is known completely: a run is complete only when the
        symbol after it has been read. */
    method ReadSymbols(first: Symbol, ghost base: Spec) returns (cursym: Symbol, nextsym: Symbol)
      requires Explains(o, text, pos, base, first, None)
      modifies this`pos
      ensures Explains(o, text, pos, base, cursym, nextsym)
      ensures cursym != None && (Folds(cursym) ==> nextsym != None)
      ensures first != None ==> cursym == first || (Folds(first) && SameKind(first, cursym))
      ensures pos >= old(pos) && (first == None && cursym != Eof ==> pos > old(pos))
      ensures pos == old(pos) && nextsym != None ==> nextsym == Eof
    {
      cursym, nextsym := first, None;
      var loop := cursym == None || Folds(cursym);
      FitsIs(pos, base, cursym, nextsym);
      while loop
        invariant Fits(pos, base, cursym, nextsym) && pos <= |text|
        invariant loop <==> nextsym == None && (cursym == None || Folds(cursym))
        invariant first != None ==> cursym == first || (Folds(first) && SameKind(first, cursym))
        invariant pos >= old(pos) && (first == None && cursym !in {None, Eof} ==> pos > old(pos))
        invariant pos == old(pos) && nextsym != None ==> nextsym == Eof
        decreases |text| - pos, loop
      {
        cursym, nextsym, loop := ReadSymbol(cursym, base);
      }
      FitsIs(pos, base, cursym, nextsym);
    }

    static ghost function Rank(cursym: Symbol, nextsym: Symbol): nat {
      if cursym == Eof then 0 else if nextsym == Eof then 1 else if nextsym == None then 2 else 3
    }

    /** The program is complete, and it is the one that the text specifies. */
    ghost predicate Complete()
      reads this
    {
      S.Balanced(text) && blocks == Compile(o, text)
    }

    ghost predicate Result(r: Outcome)
      reads this
    {
      match r
      case Done => Complete()
      case ExtraClose => !S.NothingExtra(text, |text|)
      case MissingClose => S.NothingExtra(text, |text|) && S.Opens(text, |text|) != []
    }

    /** Reads and writes out the body of a loop, or the whole program. */
    method ReadLoop(loop: Enclosing, ghost frames: seq<Frame>) returns (r: Outcome)
      requires Stands(frames, None, None)
      requires loop.TopLevel? <==> frames == []
      requires loop.Inside? ==> var f := frames[|frames| - 1]; loop == Inside(f.phi, f.body, f.test)
      modifies this
      ensures r == Done && loop.Inside? ==> Stands(frames[..|frames| - 1], None, None) && pos > old(pos)
      ensures r != Done || loop.TopLevel? ==> Result(r)
      decreases |text| - pos, 0, 1
    {
      var cursym, nextsym := None, None;
      while cursym != Eof && cursym != EndLoop
        invariant Stands(frames, cursym, nextsym)
        invariant (Folds(cursym) ==> nextsym != None) && (cursym == None ==> nextsym == None)
        invariant pos >= old(pos) && (cursym !in {None, Eof} ==> pos > old(pos))
        decreases |text| - pos, Rank(cursym, nextsym)
      {
        r, cursym, nextsym := WriteAndRead(cursym, nextsym, frames);
        if r != Done {
          return;
        }
      }
      r := Finish(loop, cursym, nextsym, frames);
    }

    /** Writes a symbol out and reads the next ones. */
    method WriteAndRead(cur: Symbol, nxt: Symbol, ghost frames: seq<Frame>)
      returns (r: Outcome, cursym: Symbol, nextsym: Symbol)
      requires Stands(frames, cur, nxt) && cur !in {Eof, EndLoop}
      requires (Folds(cur) ==> nxt != None) && (cur == None ==> nxt == None)
      modifies this
      ensures r == Done ==> Stands(frames, cursym, nextsym) && cursym != None && (Folds(cursym) ==> nextsym != None)
      ensures r == Done ==> pos > old(pos) || (pos == old(pos) && Rank(cursym, nextsym) < Rank(cur, nxt))
      ensures r == Done && nxt == None && cursym != Eof ==> pos > old(pos)
      ensures r != Done ==> Result(r)
      decreases |text| - pos, 0, if cur == None then 0 else 3
    {
      cursym, nextsym := None, None;
      if cur == Loop {
        r := WriteLoop(nxt, frames);
        if r != Done {
          return;
        }
      } else {
        r := Done;
        CommandNext(cur, nxt, frames);
      }
      cursym, nextsym := ReadNext(nxt, frames);
    }

    method CommandNext(cur: Symbol, nxt: Symbol, ghost frames: seq<Frame>)
      requires Stands(frames, cur, nxt) && cur !in {Loop, EndLoop, Eof} && (Folds(cur) ==> nxt != None)
      modifies this
      ensures Stands(frames, nxt, None) && pos == old(pos)
    {
      assert Look(pos);
      WriteCommand(cur, nxt, frames);
    }

    method ReadNext(first: Symbol, ghost frames: seq<Frame>) returns (cursym: Symbol, nextsym: Symbol)
      requires Stands(frames, first, None)
      modifies this`pos
      ensures Stands(frames, cursym, nextsym)
      ensures cursym != None && (Folds(cursym) ==> nextsym != None)
      ensures first != None ==> cursym == first || (Folds(first) && SameKind(first, cursym))
      ensures pos >= old(pos) && (first == None && cursym != Eof ==> pos > old(pos))
      ensures pos == old(pos) && nextsym != None ==> nextsym == Eof
    {
      assert Look(pos);
      cursym, nextsym := ReadSymbols(first, Written(frames));
    }

    /** Writes out the loop that begins here; no symbol is held behind its bracket. */
    method WriteLoop(nxt: Symbol, ghost frames: seq<Frame>) returns (r: Outcome)
      requires Stands(frames, Loop, nxt)
      modifies this
      ensures r == Done ==> Stands(frames, nxt, None) && nxt == None && pos > old(pos)
      ensures r != Done ==> Result(r)
      decreases |text| - pos, 0, 2
    {
      assert Look(pos);
      ghost var before, f := Written(frames), NewFrame(Code());
      var inner := OpenLoop();
      LoopOpened(o, text, pos, before, Written(frames + [f]));
      r := ReadLoop(inner, frames + [f]);
      assert (frames + [f])[..|frames|] == frames;
    }

    /** The end of a loop or of the text, each in its place or out of it. */
    method Finish(loop: Enclosing, cursym: Symbol, nextsym: Symbol, ghost frames: seq<Frame>) returns (r: Outcome)
      requires Stands(frames, cursym, nextsym) && cursym in {Eof, EndLoop}
      requires loop.TopLevel? <==> frames == []
      requires loop.Inside? ==> var f := frames[|frames| - 1]; loop == Inside(f.phi, f.body, f.test)
      modifies this
      ensures r == Done && loop.Inside? ==> Stands(frames[..|frames| - 1], None, None) && pos == old(pos)
      ensures r == Done && loop.Inside? ==> cursym == EndLoop
      ensures r != Done || loop.TopLevel? ==> Result(r)
    {
      assert Look(pos);
      ghost var before := Written(frames);
      if cursym == EndLoop {
        if loop.TopLevel? {
          return ExtraClose;
        }
        ghost var n := |frames| - 1;
        assert FrameOk(o, before.code, before.frames[n]);
        CloseLoop(loop, frames[n]);
        LoopClosed(o, text, pos, before, Written(frames[..n]));
        return Done;
      }
      ExplainsEnd(o, text, pos, before);
      Insert(Br(END));
      r := if loop.TopLevel? then Done else MissingClose;
    }

    /** Compiles the text.  It succeeds exactly on balanced texts, tells the two ways of not being
        balanced apart, and leaves the specified program. */
    method Parse() returns (r: Outcome)
      requires pos == 0
      modifies this
      ensures r == Done <==> S.Balanced(text)
      ensures r == ExtraClose <==> !S.NothingExtra(text, |text|)
      ensures r == Done ==> blocks == Compile(o, text)
    {
      Header();
      assert Written([]) == SpecAt(o, text, 0);
      SpecAtOk(o, text, 0);
      r := ReadLoop(TopLevel, []);
    }
  }
}

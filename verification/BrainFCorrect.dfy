/** The emitted program behaves like the text it was compiled from: what the one shows, step by
    step and also if it never ends, the other shows, and with bounds checks no instruction
    touches memory outside the tape. */
module BrainFCorrect {
  import opened BrainFMachine
  import S = BrainFSource
  import opened BrainFSpec
  import opened BrainFRuns

  /** Head and tape once the run that is kept back has been carried out. */
  function Applied(pending: Pending, h: int, tape: map<int, int>): (int, map<int, int>) {
    match pending
    case Nothing => (h, tape)
    case Moves(k) => (h + k, tape)
    case Changes(k) => (h, tape[h := (Cell(tape, h) + k) % 256])
  }

  ghost predicate CellsOk(tape: map<int, int>) {
    forall i :: i in tape ==> 0 <= tape[i] < 256
  }

  /** The machine has done all of what the interpreter has, except for what is kept back. */
  ghost predicate Synced(e: Env, sp: Spec, s: S.State, m: Machine, h: int) {
    && !s.halted
    && At(e.o, sp.code, m, h) && !S.OffTape(e.o, h)
    && (s.head, s.tape) == Applied(sp.pending, h, m.tape)
    && s.input == m.input && s.trace == m.trace && CellsOk(m.tape)
  }

  predicate InText(text: string, p: nat) {
    p <= |text|
  }

  /** A program compiled from a balanced text of fewer than 2^31 characters. */
  ghost predicate Compiled(e: Env, text: string) {
    && EnvOk(e) && |text| < 0x8000_0000 && |e.specs| == |text| + 1 == |e.flushed|
    && forall p: nat {:trigger InText(text, p)} :: InText(text, p) ==>
         && e.specs[p] == SpecAt(e.o, text, p) && e.flushed[p] == Flush(e.o, SpecAt(e.o, text, p))
         && e.P == Compile(e.o, text) && S.Balanced(text)
  }

  // ---- facts about the code after p characters

  function Distance(pending: Pending): nat {
    if !pending.Moves? then 0 else if pending.k < 0 then -pending.k else pending.k
  }

  lemma FeedMovesByOne(o: Options, s: Spec, c: char)
    requires Indexed(s)
    ensures Distance(Feed(o, s, c).pending) <= Distance(s.pending) + 1
  {
  }

  lemma {:induction false} PendingIsShort(o: Options, text: string, p: nat)
    requires p <= |text|
    ensures Distance(SpecAt(o, text, p).pending) <= p
  {
    if p > 0 {
      PendingIsShort(o, text, p - 1);
      FeedMovesByOne(o, SpecAt(o, text, p - 1), text[p - 1]);
    }
  }

  /** The frame of the loop that begins at q. */
  function FrameOfLoop(o: Options, text: string, q: nat): Frame
    requires q <= |text|
  {
    NewFrame(Flush(o, SpecAt(o, text, q)).code)
  }

  /** The frames of all loops, by where they begin. */
  ghost predicate IsFrameTable(o: Options, text: string, table: seq<Frame>) {
    && |table| == |text| + 1
    && forall q: nat {:trigger InText(text, q)} :: InText(text, q) ==> table[q] == FrameOfLoop(o, text, q)
  }

  ghost predicate FramesMatch(table: seq<Frame>, fs: seq<Frame>, os: seq<nat>) {
    |fs| == |os| && forall k :: 0 <= k < |os| ==> os[k] < |table| && fs[k] == table[os[k]]
  }

  lemma FeedFrames(o: Options, s: Spec, c: char, fs: seq<Frame>, f: Frame)
    requires Indexed(s) && fs == Feed(o, s, c).frames && f == NewFrame(Flush(o, s).code)
    ensures fs == if c == '[' then s.frames + [f]
                  else if c == ']' && s.frames != [] then s.frames[..|s.frames| - 1]
                  else s.frames
  {
  }

  lemma FramesMatchStep(text: string, table: seq<Frame>, p: nat, fs: seq<Frame>, os: seq<nat>, fs': seq<Frame>,
                        os': seq<nat>)
    requires p < |text| < |table| && FramesMatch(table, fs, os) && (text[p] == ']' ==> os != [])
    requires fs' == if text[p] == '[' then fs + [table[p]] else if text[p] == ']' then fs[..|fs| - 1] else fs
    requires os' == if text[p] == '[' then os + [p] else if text[p] == ']' then os[..|os| - 1] else os
    ensures FramesMatch(table, fs', os')
  {
    if text[p] == '[' {
      assert forall k :: 0 <= k < |os| ==> fs'[k] == fs[k] && os'[k] == os[k];
    } else if text[p] == ']' {
      assert forall k :: 0 <= k < |os| - 1 ==> fs'[k] == fs[k] && os'[k] == os[k];
    }
  }

  lemma FramesMatchNext(o: Options, text: string, table: seq<Frame>, p: nat, s: Spec, os: seq<nat>, fs': seq<Frame>,
                        os': seq<nat>)
    requires p < |text| && S.NothingExtra(text, p + 1) && IsFrameTable(o, text, table)
    requires s == SpecAt(o, text, p) && os == S.Opens(text, p) && FramesMatch(table, s.frames, os)
    requires fs' == Feed(o, s, text[p]).frames && os' == S.Opens(text, p + 1)
    ensures FramesMatch(table, fs', os')
  {
    assert table[p] == NewFrame(Flush(o, s).code) by {
      assert InText(text, p);
    }
    FeedFrames(o, s, text[p], fs', table[p]);
    S.OpensNext(text, p, os, os');
    FramesMatchStep(text, table, p, s.frames, os, fs', os');
  }

  /** After p characters; this is not looked into unless one asks for that place. */
  ghost predicate MatchAt(o: Options, text: string, table: seq<Frame>, p: nat) {
    forall q: nat {:trigger InText(text, q)} :: InText(text, q) && q == p ==>
      FramesMatch(table, SpecAt(o, text, q).frames, S.Opens(text, q))
  }

  lemma MatchAtNext(o: Options, text: string, table: seq<Frame>, p: nat)
    requires p < |text| && S.NothingExtra(text, p + 1) && IsFrameTable(o, text, table) && MatchAt(o, text, table, p)
    ensures MatchAt(o, text, table, p + 1)
  {
    assert InText(text, p);
    FramesMatchNext(o, text, table, p, SpecAt(o, text, p), S.Opens(text, p), SpecAt(o, text, p + 1).frames,
                    S.Opens(text, p + 1));
  }

  lemma MatchAtStart(o: Options, text: string, table: seq<Frame>)
    ensures MatchAt(o, text, table, 0)
  {
  }

  lemma {:induction false} MatchesThroughout(o: Options, text: string, table: seq<Frame>, p: nat)
    requires p <= |text| && S.NothingExtra(text, p) && IsFrameTable(o, text, table)
    ensures MatchAt(o, text, table, p)
  {
    if p == 0 {
      MatchAtStart(o, text, table);
    } else {
      MatchesThroughout(o, text, table, p - 1);
      MatchAtNext(o, text, table, p - 1);
    }
  }

  /** The open frames are those made where the open loops begin. */
  lemma FramesMatchOpens(o: Options, text: string, table: seq<Frame>, p: nat)
    requires p <= |text| && S.NothingExtra(text, p) && IsFrameTable(o, text, table)
    ensures FramesMatch(table, SpecAt(o, text, p).frames, S.Opens(text, p))
  {
    MatchesThroughout(o, text, table, p);
    assert InText(text, p);
  }

  /** What a command or a run of the other kind ends is in the program. */
  lemma FlushedGrowsIntoProgram(o: Options, text: string, p: nat)
    requires p < |text|
    requires || SpecAt(o, text, p + 1).code == Flush(o, SpecAt(o, text, p)).code
             || (text[p] in {',', '.', '[', ']'} && (text[p] == ']' ==> SpecAt(o, text, p).frames != []))
    ensures Grows(Flush(o, SpecAt(o, text, p)).code.blocks, Compile(o, text))
  {
    BlocksAtGrowIntoProgram(o, text, p + 1);
    if SpecAt(o, text, p + 1).code != Flush(o, SpecAt(o, text, p)).code {
      SpecAtOk(o, text, p);
      FeedCommandOk(o, SpecAt(o, text, p), text[p]);
      GrowsTransitive(Flush(o, SpecAt(o, text, p)).code.blocks, BlocksAt(o, text, p + 1), Compile(o, text));
    }
  }

  // ---- one character

  /** Carrying out what was kept back; the head may turn out to have left the tape. */
  lemma RunFlush(e: Env, sp: Spec, s: S.State, m: Machine, h: int) returns (n: nat, m': Machine)
    requires EnvOk(e) && SpecOk(e.o, sp) && Synced(e, sp, s, m, h) && Grows(Flush(e.o, sp).code.blocks, e.P)
    requires sp.pending.Moves? ==> -0x8000_0000 < sp.pending.k < 0x8000_0000
    ensures sp.pending != Nothing ==> n > 0
    ensures !S.OffTape(e.o, s.head) ==>
              Good(e, m, n, m', {s.trace}) && Synced(e, Flush(e.o, sp), s, m', s.head)
    ensures S.OffTape(e.o, s.head) ==>
              n > 0 && Good(e, m, n, m', {s.trace, s.trace + [LeftTheTape]})
              && IsOver(m') && m'.trace == s.trace + [LeftTheTape] && m'.tape == s.tape
  {
    match sp.pending {
      case Nothing =>
        n, m' := 0, m;
      case Moves(k) =>
        n, m' := RunMove(e, sp.code, k, m, h);
        if !S.OffTape(e.o, s.head) {
          assert {m.trace, m'.trace} == {s.trace};
        }
      case Changes(k) =>
        n, m' := RunChange(e, sp.code, k, m, h);
    }
  }

  /** After n instructions the machine has done what took the interpreter from s to s'. */
  ghost predicate FollowsTo(e: Env, s: S.State, s': S.State, sp': Spec, m: Machine, n: nat, m': Machine, h': int) {
    && Good(e, m, n, m', {s.trace, s'.trace})
    && (n > 0 || (!s'.halted && s'.pos == s.pos + 1))
    && (if s'.halted then IsOver(m') && m'.trace == s'.trace && m'.tape == s'.tape
        else Synced(e, sp', s', m', h'))
  }

  /** What one character of the text makes of a synchronised machine. */
  ghost predicate Follows(e: Env, text: string, s: S.State, m: Machine, n: nat, m': Machine, h': int)
    requires s.pos <= |text| < |e.specs|
  {
    var s' := S.Step(e.o, text, s);
    FollowsTo(e, s, s', e.specs[s'.pos], m, n, m', h')
  }

  ghost predicate Ready(e: Env, text: string, s: S.State, m: Machine, h: int) {
    Compiled(e, text) && s.pos <= |text| && Synced(e, e.specs[s.pos], s, m, h)
  }

  /** The end of the program: to the closing block, and out. */
  lemma RunToEnd(e: Env, c: Code, m: Machine, n: nat, m1: Machine, h: int) returns (n': nat, m': Machine)
    requires EnvOk(e) && CodeOk(e.o, c) && e.P == Emit(c, [Br(END)]).blocks
    requires At(e.o, c, m1, h) && Good(e, m, n, m1, {m1.trace})
    ensures n' > 0 && Good(e, m, n', m', {m1.trace})
    ensures IsOver(m') && m'.trace == m1.trace && m'.tape == m1.tape
  {
    GrowsReflexive(e.P);
    AppendedCodeAt(e.P, c, e.P, [Br(END)]);
    var m2 := Jump(m1, END);
    Run1(e, m, n, m1, {m1.trace}, Br(END), m2);
    n', m' := RunEnd(e, e.P, m, n + 1, m2, {m1.trace});
  }

  lemma FlushAtEnd(e: Env, text: string, s: S.State, m: Machine, h: int) returns (n: nat, m': Machine)
    requires Ready(e, text, s, m, h) && s.pos == |text|
    ensures var f := e.flushed[s.pos];
            && CodeOk(e.o, f.code) && e.P == Emit(f.code, [Br(END)]).blocks && f.pending == Nothing
            && (!S.OffTape(e.o, s.head) ==> Good(e, m, n, m', {s.trace}) && Synced(e, f, s, m', s.head))
            && (S.OffTape(e.o, s.head) ==>
                  n > 0 && Good(e, m, n, m', {s.trace, s.trace + [LeftTheTape]})
                  && IsOver(m') && m'.trace == s.trace + [LeftTheTape] && m'.tape == s.tape)
  {
    var sp := e.specs[s.pos];
    assert InText(text, s.pos);
    SpecAtOk(e.o, text, s.pos);
    FlushOk(e.o, sp);
    PendingIsShort(e.o, text, s.pos);
    FlushedEndGrowsIntoProgram(e.o, text);
    n, m' := RunFlush(e, sp, s, m, h);
  }

  lemma FollowEnd(e: Env, text: string, s: S.State, m: Machine, h: int) returns (n: nat, m': Machine)
    requires Ready(e, text, s, m, h) && s.pos == |text|
    ensures Follows(e, text, s, m, n, m', s.head)
  {
    n, m' := FlushAtEnd(e, text, s, m, h);
    var s' := S.Step(e.o, text, s);
    if S.OffTape(e.o, s.head) {
      FollowLeft(e, s, s', e.specs[s.pos], m, n, m', s.head);
    } else {
      n, m' := RunToEnd(e, e.flushed[s.pos].code, m, n, m', s.head);
      GoodMore(e, m, n, m', {s.trace}, {s.trace, s'.trace});
    }
  }

  /** Whether a character joins the run that is kept back, or starts one. */
  predicate Joins(pending: Pending, c: char) {
    match pending
    case Nothing => c in {'+', '-', '<', '>'}
    case Moves(_) => c in {'<', '>'}
    case Changes(_) => c in {'+', '-'}
  }

  function Direction(c: char): int {
    if c in {'+', '>'} then 1 else -1
  }

  function Joined(pending: Pending, c: char): Pending {
    if c in {'<', '>'} then Moves(Direction(c) + if pending.Moves? then pending.k else 0)
    else Changes(Direction(c) + if pending.Changes? then pending.k else 0)
  }

  lemma FedIs(o: Options, sp: Spec, f: Spec, c: char, sp': Spec)
    requires Indexed(sp) && f == Flush(o, sp) && sp' == Feed(o, sp, c)
    ensures Indexed(f)
    ensures Joins(sp.pending, c) ==> sp' == sp.(pending := Joined(sp.pending, c))
    ensures c in {'+', '-', '<', '>'} && !Joins(sp.pending, c) ==> sp' == f.(pending := Joined(Nothing, c))
    ensures c == ',' ==> sp' == f.(code := EmitRead(f.code))
    ensures c == '.' ==> sp' == f.(code := EmitWrite(f.code))
    ensures c !in {'+', '-', '<', '>', ',', '.', '[', ']'} ==> sp' == sp
  {
  }

  /** How each character changes what has been emitted. */
  lemma SpecNext(e: Env, text: string, p: nat)
    requires Compiled(e, text) && p < |text|
    ensures var sp, f, sp', c := e.specs[p], e.flushed[p], e.specs[p + 1], text[p];
            && Indexed(f)
            && (Joins(sp.pending, c) ==> sp' == sp.(pending := Joined(sp.pending, c)))
            && (c in {'+', '-', '<', '>'} && !Joins(sp.pending, c) ==> sp' == f.(pending := Joined(Nothing, c)))
            && (c == ',' ==> sp' == f.(code := EmitRead(f.code)))
            && (c == '.' ==> sp' == f.(code := EmitWrite(f.code)))
            && (c !in {'+', '-', '<', '>', ',', '.', '[', ']'} ==> sp' == sp)
  {
    assert InText(text, p) && InText(text, p + 1);
    FedIs(e.o, e.specs[p], e.flushed[p], text[p], e.specs[p + 1]);
  }

  lemma CodeInProgram(e: Env, text: string, p: nat)
    requires Compiled(e, text) && p <= |text|
    ensures Grows(e.specs[p].code.blocks, e.P)
  {
    assert InText(text, p);
    BlocksAtGrowIntoProgram(e.o, text, p);
  }

  /** How each character changes the state of the interpreter. */
  lemma StepNext(o: Options, text: string, s: S.State)
    requires s.pos < |text| && !s.halted
    ensures var s', c, v := S.Step(o, text, s), text[s.pos], Cell(s.tape, s.head);
            && (c in {'<', '>'} ==> s' == S.Next(s).(head := s.head + Direction(c)))
            && (c !in {'+', '-', '<', '>', ',', '.', '[', ']'} ==> s' == S.Next(s))
            && (c in {'+', '-', ',', '.', '[', ']'} && S.OffTape(o, s.head) ==> s' == S.LeaveTape(s))
            && (c in {'+', '-', ',', '.', '[', ']'} && !S.OffTape(o, s.head) ==>
                  && (c in {'+', '-'} ==> s' == S.Write(s, v + Direction(c)))
                  && (c == ',' ==> var (g, rest) := GetChar(s.input);
                                   s' == S.Write(s, g).(input := rest, trace := s.trace + [Got(g)]))
                  && (c == '.' ==> s' == S.Next(s).(trace := s.trace + [Put(v)]))
                  && (c == '[' ==> s' == s.(pos := if v == 0 then S.SkipForward(text, s.pos + 1, 1) else s.pos + 1))
                  && (c == ']' ==> s' == s.(pos := if v != 0 then S.SkipBack(text, s.pos, 1) + 1 else s.pos + 1)))
  {
  }

  /** A character that leaves everything to later. */
  lemma FollowKept(e: Env, text: string, s: S.State, s': S.State, sp: Spec, sp': Spec, m: Machine, h: int)
    requires Ready(e, text, s, m, h) && s.pos < |text| && s' == S.Step(e.o, text, s)
    requires sp == e.specs[s.pos] && sp' == e.specs[s.pos + 1]
    requires Joins(sp.pending, text[s.pos]) || text[s.pos] !in {'+', '-', '<', '>', ',', '.', '[', ']'}
    ensures FollowsTo(e, s, s', sp', m, 0, m, h) && s'.pos == s.pos + 1
  {
    SpecNext(e, text, s.pos);
    StepNext(e.o, text, s);
    Kept(e, sp, sp', s, s', m, h, text[s.pos]);
  }

  lemma Kept(e: Env, sp: Spec, sp': Spec, s: S.State, s': S.State, m: Machine, h: int, c: char)
    requires Synced(e, sp, s, m, h)
    requires Joins(sp.pending, c) || c !in {'+', '-', '<', '>', ',', '.', '[', ']'}
    requires sp' == if Joins(sp.pending, c) then sp.(pending := Joined(sp.pending, c)) else sp
    requires c in {'+', '-'} && !S.OffTape(e.o, s.head) ==> s' == S.Write(s, Cell(s.tape, s.head) + Direction(c))
    requires c in {'<', '>'} ==> s' == S.Next(s).(head := s.head + Direction(c))
    requires c !in {'+', '-', '<', '>'} ==> s' == S.Next(s)
    ensures FollowsTo(e, s, s', sp', m, 0, m, h)
  {
    if c in {'<', '>'} {
      KeepMove(e, sp, sp', s, s', m, h, Direction(c));
    } else if c in {'+', '-'} {
      KeepChange(e, sp, sp', s, s', m, h, Direction(c));
    }
  }

  lemma KeepMove(e: Env, sp: Spec, sp': Spec, s: S.State, s': S.State, m: Machine, h: int, d: int)
    requires Synced(e, sp, s, m, h) && !sp.pending.Changes?
    requires sp' == sp.(pending := Moves(d + if sp.pending.Moves? then sp.pending.k else 0))
    requires s' == S.Next(s).(head := s.head + d)
    ensures Synced(e, sp', s', m, h) && Good(e, m, 0, m, {s.trace, s'.trace})
  {
  }

  lemma KeepChange(e: Env, sp: Spec, sp': Spec, s: S.State, s': S.State, m: Machine, h: int, d: int)
    requires Synced(e, sp, s, m, h) && !sp.pending.Moves?
    requires sp' == sp.(pending := Changes(d + if sp.pending.Changes? then sp.pending.k else 0))
    requires s' == S.Write(s, Cell(s.tape, s.head) + d)
    ensures Synced(e, sp', s', m, h) && Good(e, m, 0, m, {s.trace, s'.trace})
  {
    if sp.pending.Changes? {
      var v, k := Cell(m.tape, h), sp.pending.k;
      assert ((v + k) % 256 + d) % 256 == (v + (d + k)) % 256;
      assert m.tape[h := (v + k) % 256][h := (v + (d + k)) % 256] == m.tape[h := (v + (d + k)) % 256];
    }
  }

  /** Carries out what was kept back before the command at s.pos. */
  lemma FlushBefore(e: Env, text: string, s: S.State, m: Machine, h: int) returns (n: nat, m': Machine)
    requires Ready(e, text, s, m, h) && s.pos < |text|
    requires || e.specs[s.pos + 1].code == e.flushed[s.pos].code
             || (text[s.pos] in {',', '.', '[', ']'} && (text[s.pos] == ']' ==> e.specs[s.pos].frames != []))
    ensures var f := e.flushed[s.pos];
            && SpecOk(e.o, f) && f.pending == Nothing && f.frames == e.specs[s.pos].frames
            && (e.specs[s.pos].pending != Nothing ==> n > 0)
            && (!S.OffTape(e.o, s.head) ==> Good(e, m, n, m', {s.trace}) && Synced(e, f, s, m', s.head))
            && (S.OffTape(e.o, s.head) ==>
                  n > 0 && Good(e, m, n, m', {s.trace, s.trace + [LeftTheTape]})
                  && IsOver(m') && m'.trace == s.trace + [LeftTheTape] && m'.tape == s.tape)
  {
    var sp := e.specs[s.pos];
    assert InText(text, s.pos) && InText(text, s.pos + 1);
    SpecAtOk(e.o, text, s.pos);
    FlushOk(e.o, sp);
    PendingIsShort(e.o, text, s.pos);
    FlushedGrowsIntoProgram(e.o, text, s.pos);
    n, m' := RunFlush(e, sp, s, m, h);
  }

  /** The flush made the error block end the run, as the interpreter does at this command. */
  lemma FollowLeft(e: Env, s: S.State, s': S.State, sp': Spec, m: Machine, n: nat, m': Machine, h': int)
    requires s' == S.LeaveTape(s) && n > 0 && Good(e, m, n, m', {s.trace, s.trace + [LeftTheTape]})
    requires IsOver(m') && m'.trace == s.trace + [LeftTheTape] && m'.tape == s.tape
    ensures FollowsTo(e, s, s', sp', m, n, m', h')
  {
  }

  /** After the flush, the command proper: joins the two stretches. */
  lemma FollowJoined(e: Env, s: S.State, s': S.State, sp': Spec, m: Machine, a: nat, m1: Machine, b: nat, m': Machine,
                     h': int)
    requires Good(e, m, a, m1, {s.trace}) && b > 0
    requires Good(e, m1, b, m', {s.trace, s'.trace}) && Synced(e, sp', s', m', h')
    ensures FollowsTo(e, s, s', sp', m, a + b, m', h')
  {
    var ts := {s.trace, s'.trace};
    GoodMore(e, m, a, m1, {s.trace}, ts);
    GoodJoin(e, m, a, m1, b, m', ts);
  }

  /** A move after changes, or a change after moves. */
  lemma FollowOtherRun(e: Env, text: string, s: S.State, m: Machine, h: int) returns (n: nat, m': Machine, h': int)
    requires Ready(e, text, s, m, h) && s.pos < |text| && text[s.pos] in {'+', '-', '<', '>'}
    requires !Joins(e.specs[s.pos].pending, text[s.pos])
    ensures Follows(e, text, s, m, n, m', h')
  {
    SpecNext(e, text, s.pos);
    StepNext(e.o, text, s);
    n, m' := FlushBefore(e, text, s, m, h);
    h' := s.head;
    OtherRun(e, e.flushed[s.pos], e.specs[s.pos + 1], s, S.Step(e.o, text, s), m, h, n, m', text[s.pos]);
  }

  lemma OtherRun(e: Env, f: Spec, sp': Spec, s: S.State, s': S.State, m: Machine, h: int, n: nat, m': Machine, c: char)
    requires c in {'+', '-', '<', '>'} && n > 0 && f.pending == Nothing && sp' == f.(pending := Joined(Nothing, c))
    requires c in {'+', '-'} && !S.OffTape(e.o, s.head) ==> s' == S.Write(s, Cell(s.tape, s.head) + Direction(c))
    requires c in {'+', '-'} && S.OffTape(e.o, s.head) ==> s' == S.LeaveTape(s)
    requires c in {'<', '>'} ==> s' == S.Next(s).(head := s.head + Direction(c)) && !S.OffTape(e.o, s.head)
    requires !S.OffTape(e.o, s.head) ==> Good(e, m, n, m', {s.trace}) && Synced(e, f, s, m', s.head)
    requires S.OffTape(e.o, s.head) ==>
               Good(e, m, n, m', {s.trace, s.trace + [LeftTheTape]})
               && IsOver(m') && m'.trace == s.trace + [LeftTheTape] && m'.tape == s.tape
    ensures FollowsTo(e, s, s', sp', m, n, m', s.head)
  {
    if S.OffTape(e.o, s.head) {
      FollowLeft(e, s, s', sp', m, n, m', s.head);
    } else {
      GoodMore(e, m, n, m', {s.trace}, {s.trace, s'.trace});
      if c in {'<', '>'} {
        KeepMove(e, f, sp', s, s', m', s.head, Direction(c));
      } else {
        KeepChange(e, f, sp', s, s', m', s.head, Direction(c));
      }
    }
  }

  lemma CommandRead(e: Env, f: Spec, sp': Spec, s: S.State, s': S.State, m: Machine, a: nat, m1: Machine)
    returns (n: nat, m': Machine)
    requires EnvOk(e) && CodeOk(e.o, f.code) && f.pending == Nothing && Synced(e, f, s, m1, s.head)
    requires Good(e, m, a, m1, {s.trace})
    requires sp' == f.(code := EmitRead(f.code)) && Grows(sp'.code.blocks, e.P)
    requires var (g, rest) := GetChar(s.input);
             s' == S.Write(s, g).(input := rest, trace := s.trace + [Got(g)])
    ensures FollowsTo(e, s, s', sp', m, n, m', s.head)
  {
    n, m' := RunRead(e, f.code, m1, s.head);
    FollowJoined(e, s, s', sp', m, a, m1, n, m', s.head);
    n := a + n;
  }

  lemma CommandWrite(e: Env, f: Spec, sp': Spec, s: S.State, s': S.State, m: Machine, a: nat, m1: Machine)
    returns (n: nat, m': Machine)
    requires EnvOk(e) && CodeOk(e.o, f.code) && f.pending == Nothing && Synced(e, f, s, m1, s.head)
    requires Good(e, m, a, m1, {s.trace})
    requires sp' == f.(code := EmitWrite(f.code)) && Grows(sp'.code.blocks, e.P)
    requires s' == S.Next(s).(trace := s.trace + [Put(Cell(s.tape, s.head))])
    ensures FollowsTo(e, s, s', sp', m, n, m', s.head)
  {
    n, m' := RunWrite(e, f.code, m1, s.head);
    FollowJoined(e, s, s', sp', m, a, m1, n, m', s.head);
    n := a + n;
  }

  lemma FollowRead(e: Env, text: string, s: S.State, m: Machine, h: int) returns (n: nat, m': Machine)
    requires Ready(e, text, s, m, h) && s.pos < |text| && text[s.pos] == ','
    ensures Follows(e, text, s, m, n, m', s.head)
  {
    SpecNext(e, text, s.pos);
    StepNext(e.o, text, s);
    n, m' := FlushBefore(e, text, s, m, h);
    var f, sp', s' := e.flushed[s.pos], e.specs[s.pos + 1], S.Step(e.o, text, s);
    if S.OffTape(e.o, s.head) {
      FollowLeft(e, s, s', sp', m, n, m', s.head);
    } else {
      CodeInProgram(e, text, s.pos + 1);
      n, m' := CommandRead(e, f, sp', s, s', m, n, m');
    }
  }

  lemma FollowWrite(e: Env, text: string, s: S.State, m: Machine, h: int) returns (n: nat, m': Machine)
    requires Ready(e, text, s, m, h) && s.pos < |text| && text[s.pos] == '.'
    ensures Follows(e, text, s, m, n, m', s.head)
  {
    SpecNext(e, text, s.pos);
    StepNext(e.o, text, s);
    n, m' := FlushBefore(e, text, s, m, h);
    var f, sp', s' := e.flushed[s.pos], e.specs[s.pos + 1], S.Step(e.o, text, s);
    if S.OffTape(e.o, s.head) {
      FollowLeft(e, s, s', sp', m, n, m', s.head);
    } else {
      CodeInProgram(e, text, s.pos + 1);
      n, m' := CommandWrite(e, f, sp', s, s', m, n, m');
    }
  }

  // ---- loops

  /** The loop that is closed at j, and where its test is found. */
  lemma LoopClosedAt(e: Env, text: string, j: nat) returns (i: nat, f: Frame)
    requires Compiled(e, text) && j < |text| && text[j] == ']'
    ensures e.specs[j].frames != []
    ensures S.Opens(text, j) != [] && i == S.Opens(text, j)[|S.Opens(text, j)| - 1] && i < j && text[i] == '['
    ensures f == NewFrame(e.flushed[i].code)
    ensures var c := e.flushed[j].code;
            && CodeOk(e.o, c) && FrameOk(e.o, c, f) && Grows(EmitClose(c, f).blocks, e.P)
            && e.specs[j + 1].code == EmitClose(c, f) && e.specs[j + 1].pending == Nothing
  {
    var sp, fl, sp' := e.specs[j], e.flushed[j], e.specs[j + 1];
    SpecsAre(e, text, j);
    SpecsAre(e, text, j + 1);
    i, f := LoopClosedSpec(e.o, text, j, sp, fl, sp');
    CodeInProgram(e, text, j + 1);
    SpecsAre(e, text, i);
  }

  lemma SpecsAre(e: Env, text: string, p: nat)
    requires Compiled(e, text) && p <= |text|
    ensures S.Balanced(text) && e.specs[p] == SpecAt(e.o, text, p) && e.flushed[p] == Flush(e.o, e.specs[p])
  {
    assert InText(text, p);
  }

  lemma LoopClosedSpec(o: Options, text: string, j: nat, sp: Spec, fl: Spec, sp': Spec) returns (i: nat, f: Frame)
    requires S.Balanced(text) && j < |text| && text[j] == ']'
    requires sp == SpecAt(o, text, j) && fl == Flush(o, sp) && sp' == SpecAt(o, text, j + 1)
    ensures sp.frames != []
    ensures S.Opens(text, j) != [] && i == S.Opens(text, j)[|S.Opens(text, j)| - 1] && i < j && text[i] == '['
    ensures f == FrameOfLoop(o, text, i)
    ensures CodeOk(o, fl.code) && FrameOk(o, fl.code, f) && sp'.code == EmitClose(fl.code, f) && sp'.pending == Nothing
  {
    assert S.Opens(text, j) != [];
    i, f := FrameOfInnermost(o, text, j, sp.frames, S.Opens(text, j));
    SpecAtOk(o, text, j);
    ClosingCode(o, sp, fl, sp', f);
  }

  lemma FrameOfInnermost(o: Options, text: string, j: nat, fs: seq<Frame>, os: seq<nat>) returns (i: nat, f: Frame)
    requires j <= |text| && S.NothingExtra(text, j) && fs == SpecAt(o, text, j).frames && os == S.Opens(text, j) != []
    ensures i == os[|os| - 1] && i < j && text[i] == '[' && f == FrameOfLoop(o, text, i)
    ensures fs != [] && f == fs[|fs| - 1]
  {
    var table := seq(|text| + 1, q requires 0 <= q <= |text| => FrameOfLoop(o, text, q));
    FramesMatchOpens(o, text, table, j);
    i, f := os[|os| - 1], fs[|os| - 1];
    assert InText(text, i);
  }

  lemma ClosingCode(o: Options, sp: Spec, fl: Spec, sp': Spec, f: Frame)
    requires SpecOk(o, sp) && sp.frames != [] && f == sp.frames[|sp.frames| - 1]
    requires fl == Flush(o, sp) && sp' == Feed(o, sp, ']')
    ensures CodeOk(o, fl.code) && FrameOk(o, fl.code, f) && sp'.code == EmitClose(fl.code, f) && sp'.pending == Nothing
  {
    FlushOk(o, sp);
    assert f == fl.frames[|fl.frames| - 1];
  }

  lemma RunBackToTest(e: Env, c: Code, f: Frame, s: S.State, m: Machine) returns (m': Machine)
    requires EnvOk(e) && CodeOk(e.o, c) && FrameOk(e.o, c, f) && Grows(EmitClose(c, f).blocks, e.P)
    requires At(e.o, c, m, s.head) && m.trace == s.trace
    ensures Good(e, m, 1, m', {s.trace}) && m' == Jump(m, f.test)
  {
    AppendedCodeAt(e.P, c, EmitClose(c, f).blocks, [Br(f.test)]);
    m' := Jump(m, f.test);
    Run1(e, m, 0, m, {s.trace}, Br(f.test), m');
  }

  /** The code after an opening bracket: an empty body whose head is the loop's phi. */
  lemma BodyStart(e: Env, text: string, i: nat)
    requires Compiled(e, text) && i < |text| && text[i] == '['
    ensures var f, sp' := NewFrame(e.flushed[i].code), e.specs[i + 1];
            && BodyOk(f, sp')
            && CodeOk(e.o, e.flushed[i].code) && Grows(EmitOpen(e.flushed[i].code).blocks, e.P)
  {
    var sp, fl, sp' := e.specs[i], e.flushed[i], e.specs[i + 1];
    SpecsAre(e, text, i);
    SpecsAre(e, text, i + 1);
    assert SpecOk(e.o, sp) by {
      SpecAtOk(e.o, text, i);
    }
    OpeningCode(e.o, sp, fl, sp');
    CodeInProgram(e, text, i + 1);
  }

  lemma OpeningCode(o: Options, sp: Spec, fl: Spec, sp': Spec)
    requires SpecOk(o, sp) && fl == Flush(o, sp) && sp' == Feed(o, sp, '[')
    ensures BodyOk(NewFrame(fl.code), sp') && CodeOk(o, fl.code) && sp'.code == EmitOpen(fl.code)
  {
    FlushOk(o, sp);
  }

  ghost predicate BodyOk(f: Frame, body: Spec) {
    && body.pending == Nothing && body.code.cur == f.body < |body.code.blocks| && body.code.blocks[f.body] == []
    && body.code.head == f.phi
  }

  lemma RunIntoTest(e: Env, c: Code, s: S.State, m: Machine) returns (m': Machine)
    requires EnvOk(e) && CodeOk(e.o, c) && Grows(EmitOpen(c).blocks, e.P)
    requires At(e.o, c, m, s.head) && m.trace == s.trace
    ensures Good(e, m, 1, m', {s.trace}) && m' == Jump(m, NewFrame(c).test)
  {
    var f := NewFrame(c);
    AppendedCodeAt(e.P, c, EmitOpen(c).blocks, [Br(f.test)]);
    m' := Jump(m, f.test);
    Run1(e, m, 0, m, {s.trace}, Br(f.test), m');
  }

  /** Where the loop that opens at i is closed. */
  lemma LoopOpenedAt(e: Env, text: string, i: nat) returns (j: nat)
    requires Compiled(e, text) && i < |text| && text[i] == '['
    ensures i < j < |text| && text[j] == ']' && S.SkipForward(text, i + 1, 1) == j + 1
    ensures S.Opens(text, j) != [] && S.Opens(text, j)[|S.Opens(text, j)| - 1] == i
  {
    assert InText(text, i);
    assert S.Opens(text, i + 1) == S.Opens(text, i) + [i];
    S.SkipForwardFindsClose(text, i + 1, 1);
    j := S.SkipForward(text, i + 1, 1) - 1;
    assert S.Opens(text, j) == S.Opens(text, i + 1);
  }

  /** The loop test, from either of the two places it is entered from: into the body or past the loop. */
  lemma CommandTest(e: Env, c: Code, f: Frame, body: Spec, after: Spec, sp': Spec, s: S.State, s': S.State,
                    m: Machine, a: nat, m1: Machine) returns (n: nat, m': Machine)
    requires sp' == if Cell(s.tape, s.head) == 0 then after else body
    requires EnvOk(e) && CodeOk(e.o, c) && FrameOk(e.o, c, f) && Grows(EmitClose(c, f).blocks, e.P)
    requires BodyOk(f, body)
    requires after.pending == Nothing && after.code == EmitClose(c, f)
    requires m1.status == Running && !s.halted && s.tape == m1.tape && s.input == m1.input && s.trace == m1.trace
    requires CellsOk(m1.tape)
    requires !S.OffTape(e.o, s.head)
    requires || (m1.block == f.inBlock && Live(e.o, m1, f.inHead, s.head))
             || (m1.block == c.cur && Live(e.o, m1, c.head, s.head))
    requires Good(e, m, a, m1, {s.trace}) && Good(e, m1, 1, Jump(m1, f.test), {s.trace}) && s' == s.(pos := s'.pos)
    ensures FollowsTo(e, s, s', sp', m, n, m', s.head)
  {
    var m2 := Jump(m1, f.test);
    n, m' := RunTest(e, c, f, m2, s.head);
    assert {s.trace} == {s.trace, s'.trace};
    GoodJoin(e, m1, 1, m2, n, m', {s.trace});
    FollowJoined(e, s, s', sp', m, a, m1, 1 + n, m', s.head);
    n := a + (1 + n);
  }

  lemma GoesBackTo(e: Env, text: string, j: nat, i: nat)
    requires Compiled(e, text) && j < |text| && S.Opens(text, j) != [] && i == S.Opens(text, j)[|S.Opens(text, j)| - 1]
    ensures S.SkipBack(text, j, 1) == i
  {
    assert InText(text, j);
    S.SkipBackFindsOpen(text, j, 1);
  }

  /** From the end of the body back to the test. */
  lemma FollowClose(e: Env, text: string, s: S.State, m: Machine, h: int) returns (n: nat, m': Machine)
    requires Ready(e, text, s, m, h) && s.pos < |text| && text[s.pos] == ']'
    ensures Follows(e, text, s, m, n, m', s.head)
  {
    var i, f := LoopClosedAt(e, text, s.pos);
    StepNext(e.o, text, s);
    n, m' := FlushBefore(e, text, s, m, h);
    var c, s' := e.flushed[s.pos].code, S.Step(e.o, text, s);
    var sp' := e.specs[s'.pos];
    if S.OffTape(e.o, s.head) {
      FollowLeft(e, s, s', sp', m, n, m', s.head);
    } else {
      var _ := RunBackToTest(e, c, f, s, m');
      BodyStart(e, text, i);
      GoesBackTo(e, text, s.pos, i);
      n, m' := CommandTest(e, c, f, e.specs[i + 1], e.specs[s.pos + 1], sp', s, s', m, n, m');
    }
  }

  /** From before the loop into the test. */
  lemma FollowOpen(e: Env, text: string, s: S.State, m: Machine, h: int) returns (n: nat, m': Machine)
    requires Ready(e, text, s, m, h) && s.pos < |text| && text[s.pos] == '['
    ensures Follows(e, text, s, m, n, m', s.head)
  {
    StepNext(e.o, text, s);
    n, m' := FlushBefore(e, text, s, m, h);
    var s' := S.Step(e.o, text, s);
    var sp' := e.specs[s'.pos];
    if S.OffTape(e.o, s.head) {
      FollowLeft(e, s, s', sp', m, n, m', s.head);
    } else {
      var j := LoopOpenedAt(e, text, s.pos);
      var i, f := LoopClosedAt(e, text, j);
      BodyStart(e, text, s.pos);
      var _ := RunIntoTest(e, e.flushed[s.pos].code, s, m');
      n, m' := CommandTest(e, e.flushed[j].code, f, e.specs[s.pos + 1], e.specs[j + 1], sp', s, s', m, n, m');
    }
  }

  /** One character, whatever it is. */
  lemma FollowCharacter(e: Env, text: string, s: S.State, m: Machine, h: int) returns (n: nat, m': Machine, h': int)
    requires Ready(e, text, s, m, h)
    ensures Follows(e, text, s, m, n, m', h')
  {
    h' := s.head;
    if s.pos == |text| {
      n, m' := FollowEnd(e, text, s, m, h);
    } else if text[s.pos] == ',' {
      n, m' := FollowRead(e, text, s, m, h);
    } else if text[s.pos] == '.' {
      n, m' := FollowWrite(e, text, s, m, h);
    } else if text[s.pos] == '[' {
      n, m' := FollowOpen(e, text, s, m, h);
    } else if text[s.pos] == ']' {
      n, m' := FollowClose(e, text, s, m, h);
    } else if text[s.pos] in {'+', '-', '<', '>'} && !Joins(e.specs[s.pos].pending, text[s.pos]) {
      n, m', h' := FollowOtherRun(e, text, s, m, h);
    } else {
      n, m', h' := 0, m, h;
      FollowKept(e, text, s, S.Step(e.o, text, s), e.specs[s.pos], e.specs[s.pos + 1], m, h);
    }
  }

  // ---- whole runs

  /** What a run shows agrees with the interpreter after some characters; it is not stuck, and it
      is about to access memory within the tape only. */
  ghost predicate Agrees(e: Env, r: Machine, t: S.State) {
    && r.status != Stuck
    && r.trace == t.trace
    && (r.status == Returned ==> t.halted && r.tape == t.tape && r.alloc == 0)
    && (e.o.bounds ==> AccessInBounds(e.P, r))
  }

  /** One character, as seen from a whole run of n instructions. */
  lemma RunCharacter(e: Env, text: string, s: S.State, m: Machine, h: int, n: nat, r: Machine)
    returns (s': S.State, c: nat, m': Machine, h': int)
    requires Ready(e, text, s, m, h) && r == Run(e.P, e.base, m, n)
    ensures s'.pos <= |text| && s' == S.Step(e.o, text, s)
    ensures n < c ==> Agrees(e, r, s) || Agrees(e, r, s')
    ensures c <= n ==> r == Run(e.P, e.base, m', n - c)
    ensures m' == Run(e.P, e.base, m, c)
    ensures !s'.halted ==> Ready(e, text, s', m', h') && (c > 0 || s'.pos == s.pos + 1)
    ensures s'.halted ==> Agrees(e, m', s') && IsOver(m')
  {
    c, m', h' := FollowCharacter(e, text, s, m, h);
    s' := S.Step(e.o, text, s);
    GoodIsRun(e, m, c, m', {s.trace, s'.trace}, c);
    if n < c {
      AgreesOnTheWay(e, m, c, m', n, r, s, s');
    } else {
      RunInTwo(e.P, e.base, m, c, n - c);
    }
  }

  lemma AgreesOnTheWay(e: Env, m: Machine, c: nat, m': Machine, n: nat, r: Machine, s: S.State, s': S.State)
    requires EnvOk(e) && Good(e, m, c, m', {s.trace, s'.trace}) && n < c && r == Run(e.P, e.base, m, n)
    ensures Agrees(e, r, s) || Agrees(e, r, s')
  {
    GoodIsRun(e, m, c, m', {s.trace, s'.trace}, n);
  }

  /** Whatever the machine has done, the interpreter does too. */
  lemma {:induction false} FollowMachine(e: Env, text: string, s: S.State, m: Machine, h: int, n: nat, r: Machine)
    returns (k: nat, t: S.State)
    requires Ready(e, text, s, m, h) && r == Run(e.P, e.base, m, n)
    ensures t == S.Run(e.o, text, s, k) && Agrees(e, r, t)
    decreases n, |text| - s.pos
  {
    var s', c, m', h' := RunCharacter(e, text, s, m, h, n, r);
    if n < c {
      k, t := 0, s;
      if !Agrees(e, r, s) {
        k, t := 1, s';
        assert t == S.Run(e.o, text, s', 0);
      }
    } else if s'.halted {
      StoppedStays(e.P, e.base, m', n - c);
      k, t := 1, s';
      assert t == S.Run(e.o, text, s', 0);
    } else {
      k, t := FollowMachine(e, text, s', m', h', n - c, r);
      k := k + 1;
    }
  }

  /** The machine has shown what the interpreter has, and is done if that is. */
  ghost predicate CatchesUp(r: Machine, t: S.State) {
    r.trace == t.trace && (t.halted ==> IsOver(r) && r.tape == t.tape)
  }

  /** The same, as seen from k characters. */
  lemma InterpretCharacter(e: Env, text: string, s: S.State, m: Machine, h: int, k: nat, t: S.State)
    returns (s': S.State, c: nat, m': Machine, h': int)
    requires Ready(e, text, s, m, h) && k > 0 && t == S.Run(e.o, text, s, k)
    ensures s'.pos <= |text| && t == S.Run(e.o, text, s', k - 1)
    ensures m' == Run(e.P, e.base, m, c)
    ensures !s'.halted ==> Ready(e, text, s', m', h')
    ensures s'.halted ==> CatchesUp(m', t)
  {
    s', c, m', h' := RunCharacter(e, text, s, m, h, 0, m);
    if s'.halted {
      S.HaltedStays(e.o, text, s', k - 1);
    }
  }

  lemma RunJoined(e: Env, m: Machine, a: nat, m1: Machine, b: nat, m2: Machine) returns (n: nat)
    requires m1 == Run(e.P, e.base, m, a) && m2 == Run(e.P, e.base, m1, b)
    ensures n == a + b && m2 == Run(e.P, e.base, m, n)
  {
    n := a + b;
    RunInTwo(e.P, e.base, m, a, b);
  }

  /** Whatever the interpreter has done, the machine does too. */
  lemma {:induction false} FollowInterpreter(e: Env, text: string, s: S.State, m: Machine, h: int, k: nat, t: S.State)
    returns (n: nat, r: Machine)
    requires Ready(e, text, s, m, h) && t == S.Run(e.o, text, s, k)
    ensures r == Run(e.P, e.base, m, n) && CatchesUp(r, t)
    decreases k
  {
    if k == 0 {
      n, r := 0, m;
    } else {
      var s', c, m', h' := InterpretCharacter(e, text, s, m, h, k, t);
      if s'.halted {
        n, r := c, m';
      } else {
        n, r := FollowInterpreter(e, text, s', m', h', k - 1, t);
        n := RunJoined(e, m, c, m', n, r);
      }
    }
  }

  /** Before the first instruction nothing is known of the memory. */
  function Start(input: seq<Byte>, memory: map<int, Byte>): Machine {
    Machine(0, 0, 0, map[], memory, 0, input, [], Running)
  }

  /** The mem cells of the tape are all zero, and the head is in its middle.  Without bounds checks
      the head can get to what else is in memory. */
  function Begin(o: Options, input: seq<Byte>, memory: map<int, Byte>): S.State {
    var around := map i | i in memory && !(0 <= i < o.mem) :: memory[i] as int;
    S.State(0, o.mem / 2, around, input, [], false)
  }

  function NewEnv(o: Options, text: string, base: int): Env {
    Env(o, Compile(o, text), base, m => Step(Compile(o, text), base, m),
        m => o.bounds ==> AccessInBounds(Compile(o, text), m),
        seq(|text| + 1, p requires 0 <= p <= |text| => SpecAt(o, text, p)),
        seq(|text| + 1, p requires 0 <= p <= |text| => Flush(o, SpecAt(o, text, p))))
  }

  lemma HeaderCode(e: Env, text: string)
    requires Compiled(e, text)
    ensures CodeAt(e.P, 0, 0, [Malloc(ARR, e.o.mem)]) && CodeAt(e.P, 0, 1, [MemsetZero(ARR, e.o.mem)])
    ensures e.o.bounds ==> CodeAt(e.P, 0, 2, [Gep(ARRMAX, ARR, e.o.mem)])
    ensures CodeAt(e.P, 0, if e.o.bounds then 3 else 2, [Gep(2, ARR, e.o.mem / 2)])
  {
    assert InText(text, 0);
    CodeInProgram(e, text, 0);
    var blocks := Header(e.o).blocks;
    FixedCodeAt(e.P, blocks, 0);
    CodeSlice(e.P, 0, 0, blocks[0], 0, [Malloc(ARR, e.o.mem)]);
    CodeSlice(e.P, 0, 0, blocks[0], 1, [MemsetZero(ARR, e.o.mem)]);
    if e.o.bounds {
      CodeSlice(e.P, 0, 0, blocks[0], 2, [Gep(ARRMAX, ARR, e.o.mem)]);
      CodeSlice(e.P, 0, 0, blocks[0], 3, [Gep(2, ARR, e.o.mem / 2)]);
    } else {
      CodeSlice(e.P, 0, 0, blocks[0], 2, [Gep(2, ARR, e.o.mem / 2)]);
    }
  }

  lemma RunAllocation(e: Env, m: Machine) returns (m2: Machine)
    requires EnvOk(e) && m.status == Running && m.block == 0 && m.idx == 0
    requires CodeAt(e.P, 0, 0, [Malloc(ARR, e.o.mem)]) && CodeAt(e.P, 0, 1, [MemsetZero(ARR, e.o.mem)])
    ensures m2 == m.(idx := 2, regs := m.regs[ARR := 0], tape := Cleared(m.tape, 0, e.o.mem), alloc := e.o.mem)
    ensures Good(e, m, 2, m2, {m.trace})
  {
    var m1 := Define(m, ARR, 0).(alloc := e.o.mem);
    m2 := m1.(idx := 2, tape := Cleared(m.tape, 0, e.o.mem));
    Run1(e, m, 0, m, {m.trace}, Malloc(ARR, e.o.mem), m1);
    Run1(e, m, 1, m1, {m.trace}, MemsetZero(ARR, e.o.mem), m2);
  }

  /** The header allocates and clears the tape and puts the head in its middle. */
  lemma RunHeader(e: Env, text: string, input: seq<Byte>, memory: map<int, Byte>) returns (n: nat, m': Machine)
    requires Compiled(e, text)
    ensures Good(e, Start(input, memory), n, m', {[]})
    ensures Ready(e, text, Begin(e.o, input, memory), m', e.o.mem / 2)
  {
    var m, half := Start(input, memory), Gep(2, ARR, e.o.mem / 2);
    HeaderCode(e, text);
    var m2 := RunAllocation(e, m);
    if e.o.bounds {
      var m3 := Define(m2, ARRMAX, e.o.mem);
      Run1(e, m, 2, m2, {[]}, Gep(ARRMAX, ARR, e.o.mem), m3);
      n, m' := 4, Define(m3, 2, e.o.mem / 2);
      Run1(e, m, 3, m3, {[]}, half, m');
    } else {
      n, m' := 3, Define(m2, 2, e.o.mem / 2);
      Run1(e, m, 2, m2, {[]}, half, m');
    }
    assert InText(text, 0);
  }

  lemma NewEnvCompiled(o: Options, text: string, base: int)
    requires S.Balanced(text) && |text| < 0x8000_0000 && Placed(o, base)
    ensures Compiled(NewEnv(o, text, base), text)
  {
  }

  /** Every state the emitted program can reach, on any input, shows what the interpreter shows
      after some number of characters; a program that has returned leaves the interpreter's final
      tape and nothing allocated; and with bounds checks nothing but allocated cells is touched. */
  lemma MachineAgreesWithInterpreter(o: Options, text: string, base: int, input: seq<Byte>, memory: map<int, Byte>,
                                     n: nat)
    requires S.Balanced(text) && |text| < 0x8000_0000 && Placed(o, base)
    ensures var r := Run(Compile(o, text), base, Start(input, memory), n);
            && r.status != Stuck
            && (o.bounds ==> AccessInBounds(Compile(o, text), r))
            && exists k ::
                 var t := S.Run(o, text, Begin(o, input, memory), k);
                 r.trace == t.trace && (r.status == Returned ==> t.halted && r.tape == t.tape && r.alloc == 0)
  {
    var e := NewEnv(o, text, base);
    NewEnvCompiled(o, text, base);
    var r := Run(Compile(o, text), base, Start(input, memory), n);
    var k, t := FollowMachineFromStart(e, text, input, memory, n, r);
  }

  lemma FollowMachineFromStart(e: Env, text: string, input: seq<Byte>, memory: map<int, Byte>, n: nat, r: Machine)
    returns (k: nat, t: S.State)
    requires Compiled(e, text) && r == Run(e.P, e.base, Start(input, memory), n)
    ensures t == S.Run(e.o, text, Begin(e.o, input, memory), k) && Agrees(e, r, t)
  {
    var m, s := Start(input, memory), Begin(e.o, input, memory);
    var c, m' := RunHeader(e, text, input, memory);
    if n < c {
      GoodIsRun(e, m, c, m', {[]}, n);
      k, t := 0, s;
    } else {
      GoodIsRun(e, m, c, m', {[]}, c);
      RunInTwo(e.P, e.base, m, c, n - c);
      k, t := FollowMachine(e, text, s, m', e.o.mem / 2, n - c, r);
    }
  }

  /** The interpreter never shows anything, and never ends in any way, that the emitted program
      does not show, or end in, as well. */
  lemma InterpreterAgreesWithMachine(o: Options, text: string, base: int, input: seq<Byte>, memory: map<int, Byte>,
                                     k: nat)
    requires S.Balanced(text) && |text| < 0x8000_0000 && Placed(o, base)
    ensures var t := S.Run(o, text, Begin(o, input, memory), k);
            exists n ::
              var r := Run(Compile(o, text), base, Start(input, memory), n);
              r.trace == t.trace && (t.halted ==> IsOver(r) && r.tape == t.tape)
  {
    var e := NewEnv(o, text, base);
    NewEnvCompiled(o, text, base);
    var m, s := Start(input, memory), Begin(o, input, memory);
    var c, m' := RunHeader(e, text, input, memory);
    GoodIsRun(e, m, c, m', {[]}, c);
    var n, r := FollowInterpreter(e, text, s, m', o.mem / 2, k, S.Run(o, text, s, k));
    RunInTwo(e.P, base, m, c, n);
    assert r == Run(Compile(o, text), base, Start(input, memory), c + n);
  }
}

/** What a BrainF text means: its characters are interpreted one at a time. */
module BrainFSource {
  import opened BrainFMachine

  /** With bounds checks the tape has mem cells, otherwise it is unbounded. */
  datatype Options = Options(bounds: bool, mem: nat)

  datatype State = State(pos: nat, head: int, tape: map<int, int>, input: seq<Byte>, trace: seq<Event>, halted: bool)

  /** The head may stand off the tape between two moves only. */
  predicate OffTape(o: Options, head: int) {
    o.bounds && !(0 <= head < o.mem)
  }

  /** The position just after the bracket that closes the depth innermost open loops at q. */
  function SkipForward(text: string, q: nat, depth: nat): (r: nat)
    requires q <= |text|
    ensures q <= r <= |text|
    decreases |text| - q
  {
    if q == |text| then q
    else if text[q] == '[' then SkipForward(text, q + 1, depth + 1)
    else if text[q] == ']' then (if depth <= 1 then q + 1 else SkipForward(text, q + 1, depth - 1))
    else SkipForward(text, q + 1, depth)
  }

  /** The position of the bracket that opens the depth-th innermost loop open at q. */
  function SkipBack(text: string, q: nat, depth: nat): (r: nat)
    requires q <= |text|
    ensures r <= q && (q > 0 ==> r < q)
  {
    if q == 0 then 0
    else if text[q - 1] == ']' then SkipBack(text, q - 1, depth + 1)
    else if text[q - 1] == '[' then (if depth <= 1 then q - 1 else SkipBack(text, q - 1, depth - 1))
    else SkipBack(text, q - 1, depth)
  }

  function LeaveTape(s: State): State {
    s.(trace := s.trace + [LeftTheTape], halted := true)
  }

  function Next(s: State): State {
    s.(pos := s.pos + 1)
  }

  function Write(s: State, v: int): State {
    Next(s).(tape := s.tape[s.head := v % 256])
  }

  /** One character.  Characters that are no commands are skipped.  With bounds checks, a head
      that has left the tape is noticed by the first command that is not a move, or at the end. */
  function Step(o: Options, text: string, s: State): (r: State)
    requires s.pos <= |text|
    ensures r.pos <= |text|
  {
    if s.halted then s
    else if s.pos == |text| then (if OffTape(o, s.head) then LeaveTape(s) else s.(halted := true))
    else
      var c := text[s.pos];
      var v := Cell(s.tape, s.head);
      if c == '<' then Next(s).(head := s.head - 1)
      else if c == '>' then Next(s).(head := s.head + 1)
      else if c !in {'+', '-', ',', '.', '[', ']'} then Next(s)
      else if OffTape(o, s.head) then LeaveTape(s)
      else if c == '+' then Write(s, v + 1)
      else if c == '-' then Write(s, v - 1)
      else if c == ',' then
        var (g, rest) := GetChar(s.input);
        Write(s, g).(input := rest, trace := s.trace + [Got(g)])
      else if c == '.' then Next(s).(trace := s.trace + [Put(v)])
      else if c == '[' then (if v == 0 then s.(pos := SkipForward(text, s.pos + 1, 1)) else Next(s))
      else (if v != 0 then s.(pos := SkipBack(text, s.pos, 1) + 1) else Next(s))
  }

  function Run(o: Options, text: string, s: State, n: nat): (r: State)
    requires s.pos <= |text|
    ensures r.pos <= |text|
    decreases n
  {
    if n == 0 then s else Run(o, text, Step(o, text, s), n - 1)
  }

  lemma {:induction false} HaltedStays(o: Options, text: string, s: State, n: nat)
    requires s.pos <= |text| && s.halted
    ensures Run(o, text, s, n) == s
    decreases n
  {
    if n > 0 {
      HaltedStays(o, text, s, n - 1);
    }
  }

  // ---- balanced texts

  /** The positions of the loops open at p, innermost last. */
  function Opens(text: string, p: nat): (os: seq<nat>)
    requires p <= |text|
    ensures forall k :: 0 <= k < |os| ==> os[k] < p && text[os[k]] == '['
  {
    if p == 0 then []
    else
      var os := Opens(text, p - 1);
      if text[p - 1] == '[' then os + [p - 1]
      else if text[p - 1] == ']' && os != [] then os[..|os| - 1]
      else os
  }

  /** No bracket in text[..p] closes a loop that is not open. */
  ghost predicate NothingExtra(text: string, p: nat)
    requires p <= |text|
  {
    forall q :: 0 <= q < p && text[q] == ']' ==> Opens(text, q) != []
  }

  ghost predicate Balanced(text: string) {
    NothingExtra(text, |text|) && Opens(text, |text|) == []
  }

  /** Scanning back finds the opening bracket that the stack of open loops holds. */
  lemma {:induction false} SkipBackFindsOpen(text: string, q: nat, depth: nat)
    requires q <= |text| && NothingExtra(text, q) && 1 <= depth <= |Opens(text, q)|
    ensures SkipBack(text, q, depth) == Opens(text, q)[|Opens(text, q)| - depth]
  {
    if q > 0 {
      var os, os' := Opens(text, q - 1), Opens(text, q);
      if text[q - 1] == ']' {
        assert os != [] && os' == os[..|os| - 1];
        SkipBackFindsOpen(text, q - 1, depth + 1);
      } else if text[q - 1] == '[' {
        assert os' == os + [q - 1];
        if depth > 1 {
          SkipBackFindsOpen(text, q - 1, depth - 1);
        }
      } else {
        assert os' == os;
        SkipBackFindsOpen(text, q - 1, depth);
      }
    }
  }

  lemma OpensNext(text: string, q: nat, os: seq<nat>, os': seq<nat>)
    requires q < |text| && os == Opens(text, q) && os' == Opens(text, q + 1)
    ensures text[q] == '[' ==> os' == os + [q]
    ensures text[q] == ']' && os != [] ==> os' == os[..|os| - 1]
    ensures text[q] != '[' && text[q] != ']' ==> os' == os
  {
  }

  /** Scanning forward finds the bracket that closes the loops opened last. */
  lemma {:induction false} SkipForwardFindsClose(text: string, q: nat, depth: nat)
    requires q <= |text| && Balanced(text) && 1 <= depth <= |Opens(text, q)|
    ensures var r := SkipForward(text, q, depth);
            && q < r && text[r - 1] == ']'
            && Opens(text, r - 1) == Opens(text, q)[..|Opens(text, q)| - depth + 1]
    decreases |text| - q
  {
    var os, os' := Opens(text, q), Opens(text, q + 1);
    var k := |os| - depth + 1;
    OpensNext(text, q, os, os');
    if text[q] == '[' {
      SkipForwardFindsClose(text, q + 1, depth + 1);
      assert os'[..k] == os[..k];
    } else if text[q] == ']' {
      if depth > 1 {
        SkipForwardFindsClose(text, q + 1, depth - 1);
        assert os'[..k] == os[..k];
      } else {
        assert os[..k] == os;
      }
    } else {
      SkipForwardFindsClose(text, q + 1, depth);
    }
  }
}

/** A barrier made of a mutex, a condition variable and two counters: blocked threads wait until
    all of them have arrived and another thread releases them. */
module Barrier {

  /** Where a thread is: before its call, holding the mutex at its start, waiting on the condition,
      woken but without the mutex, holding the mutex at the end, or through. */
  datatype Place = Outside | Entered | Waiting | Woken | Leaving | Done

  /** Threads 0 to N - 1 call block; thread N calls releaseThreads(N).  At most one thread holds
      the mutex. */
  datatype State = State(n: nat, waitFor: nat, places: seq<Place>)

  predicate Holds(p: Place) {
    p == Entered || p == Leaving
  }

  predicate MutexFree(s: State) {
    forall t :: 0 <= t < |s.places| ==> !Holds(s.places[t])
  }

  function Wake(ps: seq<Place>): (r: seq<Place>)
    ensures |r| == |ps| && forall t :: 0 <= t < |ps| ==> r[t] == if ps[t] == Waiting then Woken else ps[t]
  {
    seq(|ps|, t requires 0 <= t < |ps| => if ps[t] == Waiting then Woken else ps[t])
  }

  /** Resets the counters and wakes everyone who waits. */
  function Unblock(s: State): State {
    State(0, 0, Wake(s.places))
  }

  /** The body of block, with the mutex held. */
  function BlockBody(s: State, t: nat): State
    requires t < |s.places|
  {
    var s1 := s.(n := s.n + 1);
    if s1.waitFor > 0 && s1.n == s1.waitFor then Unblock(s1.(places := s1.places[t := Leaving]))
    else s1.(places := s1.places[t := Waiting])
  }

  /** What block asserts. */
  predicate BlockAssertion(s: State) {
    s.waitFor == 0 || s.n + 1 <= s.waitFor
  }

  /** The body of releaseThreads, with the mutex held. */
  function ReleaseBody(s: State, t: nat, num: nat): State
    requires t < |s.places|
  {
    if s.n >= num then Unblock(s.(places := s.places[t := Leaving]))
    else s.(waitFor := num, places := s.places[t := Waiting])
  }

  /** One step of thread t. */
  ghost predicate Step(s: State, t: nat, s': State) {
    && t < |s.places|
    && match s.places[t]
       case Outside => MutexFree(s) && s' == s.(places := s.places[t := Entered])
       case Entered => s' == if t < |s.places| - 1 then BlockBody(s, t) else ReleaseBody(s, t, |s.places| - 1)
       case Waiting => false
       case Woken => MutexFree(s) && s' == s.(places := s.places[t := Leaving])
       case Leaving => s' == s.(places := s.places[t := Done])
       case Done => false
  }

  function Init(blockers: nat): State {
    State(0, 0, seq(blockers + 1, t => Outside))
  }

  ghost predicate Next(s: State, s': State) {
    exists t :: Step(s, t, s')
  }

  /** A run: a step of some thread leads from each state to the next. */
  ghost predicate IsRun(blockers: nat, run: seq<State>) {
    && run != [] && run[0] == Init(blockers)
    && forall i :: 0 <= i < |run| - 1 ==> Next(run[i], run[i + 1])
  }

  // ---- the invariant

  predicate Arrived(p: Place) {
    p != Outside && p != Entered
  }

  /** The threads that have counted themselves. */
  function CountArrived(ps: seq<Place>): nat {
    if ps == [] then 0 else CountArrived(ps[..|ps| - 1]) + if Arrived(ps[|ps| - 1]) then 1 else 0
  }

  function Blockers(s: State): seq<Place>
    requires s.places != []
  {
    s.places[..|s.places| - 1]
  }

  function Releaser(s: State): Place
    requires s.places != []
  {
    s.places[|s.places| - 1]
  }

  ghost predicate OneHolder(s: State) {
    forall t, u :: 0 <= t < u < |s.places| ==> !(Holds(s.places[t]) && Holds(s.places[u]))
  }

  /** Before the release nobody is past the wait; the counter tells how many have arrived. */
  ghost predicate Gathering(s: State) {
    && |s.places| >= 2
    && (forall t :: 0 <= t < |s.places| ==> s.places[t] in {Outside, Entered, Waiting})
    && s.n == CountArrived(Blockers(s))
    && s.waitFor == (if Releaser(s) == Waiting then |s.places| - 1 else 0)
    && (Releaser(s) == Waiting ==> s.n < |s.places| - 1)
  }

  /** After it nobody waits any more, and nobody is still to come. */
  ghost predicate Released(s: State) {
    && |s.places| >= 2
    && (forall t :: 0 <= t < |s.places| ==> s.places[t] in {Woken, Leaving, Done})
    && s.n == 0 && s.waitFor == 0
  }

  ghost predicate Invariant(s: State) {
    OneHolder(s) && (Gathering(s) || Released(s))
  }

  lemma {:induction false} CountBound(ps: seq<Place>)
    ensures CountArrived(ps) <= |ps|
    ensures CountArrived(ps) == |ps| <==> forall t :: 0 <= t < |ps| ==> Arrived(ps[t])
  {
    if ps != [] {
      var front := ps[..|ps| - 1];
      CountBound(front);
      assert forall t :: 0 <= t < |front| ==> front[t] == ps[t];
    }
  }

  lemma {:induction false} CountUpdate(ps: seq<Place>, t: nat, p: Place)
    requires t < |ps|
    ensures CountArrived(ps[t := p])
         == CountArrived(ps) - (if Arrived(ps[t]) then 1 else 0) + (if Arrived(p) then 1 else 0)
  {
    var n := |ps| - 1;
    if t < n {
      assert ps[t := p][..n] == ps[..n][t := p];
      CountUpdate(ps[..n], t, p);
    } else {
      assert ps[t := p][..n] == ps[..n];
    }
  }

  lemma {:induction false} CountNone(ps: seq<Place>)
    requires forall t :: 0 <= t < |ps| ==> !Arrived(ps[t])
    ensures CountArrived(ps) == 0
  {
    if ps != [] {
      CountNone(ps[..|ps| - 1]);
    }
  }

  lemma InitOk(blockers: nat)
    requires blockers >= 1
    ensures Invariant(Init(blockers)) && Gathering(Init(blockers))
  {
    CountNone(Blockers(Init(blockers)));
  }

  /** If all have arrived, the release lets everyone through. */
  lemma UnblockReleases(s: State, t: nat, s1: State)
    requires |s.places| >= 2 && OneHolder(s) && t < |s.places| && s.places[t] == Entered
    requires forall u :: 0 <= u < |s.places| && u != t ==> s.places[u] == Waiting
    requires s1.places == s.places[t := Leaving]
    ensures OneHolder(Unblock(s1)) && Released(Unblock(s1))
  {
  }

  /** Only the thread that holds the mutex is past its start and does not wait. */
  lemma OthersWait(s: State, t: nat)
    requires Gathering(s) && OneHolder(s) && t < |s.places| && s.places[t] == Entered
    requires forall u :: 0 <= u < |s.places| && u != t ==> s.places[u] != Outside
    ensures forall u :: 0 <= u < |s.places| && u != t ==> s.places[u] == Waiting
  {
    forall u | 0 <= u < |s.places| && u != t
      ensures s.places[u] == Waiting
    {
      assert Holds(s.places[t]) && !Holds(s.places[u]);
    }
  }

  /** The thread that holds the mutex in block has not counted itself; if it is the last to do so,
      all others have arrived. */
  lemma BlockCounts(s: State, t: nat)
    requires Gathering(s) && t < |s.places| - 1 && s.places[t] == Entered
    ensures s.n + 1 == CountArrived(Blockers(s)[t := Waiting]) <= |s.places| - 1
    ensures s.n + 1 == |s.places| - 1 ==> forall u :: 0 <= u < |s.places| - 1 && u != t ==> Arrived(s.places[u])
  {
    var bs := Blockers(s);
    assert bs[t] == Entered;
    CountUpdate(bs, t, Waiting);
    CountBound(bs[t := Waiting]);
    if s.n + 1 == |s.places| - 1 {
      forall u | 0 <= u < |s.places| - 1 && u != t
        ensures Arrived(s.places[u])
      {
        assert Arrived(bs[t := Waiting][u]);
      }
    }
  }

  lemma BlockKeeps(s: State, t: nat, s': State)
    requires OneHolder(s) && Gathering(s) && t < |s.places| - 1 && s.places[t] == Entered && s' == BlockBody(s, t)
    ensures Invariant(s') && BlockAssertion(s)
  {
    BlockCounts(s, t);
    if s.waitFor > 0 && s.n + 1 == s.waitFor {
      OthersWait(s, t);
      UnblockReleases(s, t, s.(n := s.n + 1, places := s.places[t := Leaving]));
    } else {
      assert Blockers(s') == Blockers(s)[t := Waiting];
    }
  }

  lemma ReleaseKeeps(s: State, t: nat, s': State)
    requires OneHolder(s) && Gathering(s) && t == |s.places| - 1 && s.places[t] == Entered
    requires s' == ReleaseBody(s, t, |s.places| - 1)
    ensures Invariant(s')
  {
    var bs := Blockers(s);
    CountBound(bs);
    if s.n >= |s.places| - 1 {
      forall u | 0 <= u < |s.places| && u != t
        ensures s.places[u] != Outside
      {
        assert Arrived(bs[u]);
      }
      OthersWait(s, t);
      UnblockReleases(s, t, s.(places := s.places[t := Leaving]));
    } else {
      assert Blockers(s') == bs;
    }
  }

  /** Taking the mutex to begin with. */
  lemma EnterKeeps(s: State, t: nat, s': State)
    requires OneHolder(s) && Gathering(s) && MutexFree(s) && t < |s.places| && s.places[t] == Outside
    requires s' == s.(places := s.places[t := Entered])
    ensures OneHolder(s') && Gathering(s')
  {
    if t < |s.places| - 1 {
      CountUpdate(Blockers(s), t, Entered);
      assert Blockers(s') == Blockers(s)[t := Entered];
    } else {
      assert Blockers(s') == Blockers(s);
    }
  }

  lemma MoveKeeps(s: State, t: nat, s': State)
    requires Invariant(s) && Step(s, t, s') && s.places[t] != Entered
    ensures Invariant(s')
  {
    if Gathering(s) {
      EnterKeeps(s, t, s');
    }
  }

  lemma StepKeeps(s: State, t: nat, s': State)
    requires Invariant(s) && Step(s, t, s')
    ensures Invariant(s') && |s'.places| == |s.places|
  {
    if s.places[t] != Entered {
      MoveKeeps(s, t, s');
    } else if t < |s.places| - 1 {
      BlockKeeps(s, t, s');
    } else {
      ReleaseKeeps(s, t, s');
    }
  }

  lemma {:induction false} RunKeeps(blockers: nat, run: seq<State>, k: nat)
    requires blockers >= 1 && IsRun(blockers, run) && k < |run|
    ensures Invariant(run[k]) && |run[k].places| == blockers + 1
  {
    if k == 0 {
      InitOk(blockers);
    } else {
      RunKeeps(blockers, run, k - 1);
      assert Next(run[k - 1], run[k - 1 + 1]);
      var t :| Step(run[k - 1], t, run[k]);
      StepKeeps(run[k - 1], t, run[k]);
    }
  }

  // ---- what follows for every run of any number of threads

  /** In every interleaving no thread gets past the barrier before all blocked threads have
      arrived at it. */
  lemma NobodyLeavesEarly(blockers: nat, run: seq<State>, k: nat, t: nat, u: nat)
    requires blockers >= 1 && IsRun(blockers, run) && k < |run| && t <= blockers && u < blockers
    ensures |run[k].places| == blockers + 1
    ensures run[k].places[t] in {Woken, Leaving, Done} ==> Arrived(run[k].places[u])
  {
    RunKeeps(blockers, run, k);
  }

  /** The assertion in block holds whenever it is reached. */
  lemma AssertionHolds(blockers: nat, run: seq<State>, k: nat, t: nat)
    requires blockers >= 1 && IsRun(blockers, run) && k < |run| && t < blockers
    ensures |run[k].places| == blockers + 1
    ensures run[k].places[t] == Entered ==> BlockAssertion(run[k])
  {
    RunKeeps(blockers, run, k);
    if run[k].places[t] == Entered {
      BlockKeeps(run[k], t, BlockBody(run[k], t));
    }
  }

  /** As long as a thread is not through, some thread can take a step. */
  lemma NeverStuck(blockers: nat, run: seq<State>)
    requires blockers >= 1 && IsRun(blockers, run)
    ensures var s := run[|run| - 1];
            (forall t :: 0 <= t < |s.places| ==> s.places[t] == Done) || exists t, s' :: Step(s, t, s')
  {
    RunKeeps(blockers, run, |run| - 1);
    SomeStep(run[|run| - 1]);
  }

  lemma SomeStep(s: State)
    requires Invariant(s)
    ensures (forall t :: 0 <= t < |s.places| ==> s.places[t] == Done) || exists t, s' :: Step(s, t, s')
  {
    if t :| 0 <= t < |s.places| && Holds(s.places[t]) {
      if s.places[t] == Leaving {
        assert Step(s, t, s.(places := s.places[t := Done]));
      } else if t < |s.places| - 1 {
        assert Step(s, t, BlockBody(s, t));
      } else {
        assert Step(s, t, ReleaseBody(s, t, |s.places| - 1));
      }
    } else if t :| 0 <= t < |s.places| && s.places[t] == Outside {
      assert MutexFree(s);
      assert Step(s, t, s.(places := s.places[t := Entered]));
    } else if t :| 0 <= t < |s.places| && s.places[t] == Woken {
      assert MutexFree(s);
      assert Step(s, t, s.(places := s.places[t := Leaving]));
    } else if Gathering(s) {
      EveryoneCannotWait(s);
    }
  }

  /** The last to come never waits. */
  lemma EveryoneCannotWait(s: State)
    requires Gathering(s)
    ensures exists t :: 0 <= t < |s.places| && s.places[t] != Waiting
  {
    CountBound(Blockers(s));
    if Releaser(s) == Waiting {
      var t :| 0 <= t < |Blockers(s)| && !Arrived(Blockers(s)[t]);
      assert s.places[t] != Waiting;
    }
  }

  // ---- every run ends

  function Left(p: Place): nat {
    match p
    case Outside => 5
    case Entered => 4
    case Waiting => 3
    case Woken => 2
    case Leaving => 1
    case Done => 0
  }

  function AllLeft(ps: seq<Place>): nat {
    if ps == [] then 0 else AllLeft(ps[..|ps| - 1]) + Left(ps[|ps| - 1])
  }

  lemma {:induction false} LessLeft(ps: seq<Place>, ps': seq<Place>, t: nat)
    requires |ps'| == |ps| && t <= |ps| && (forall u :: 0 <= u < |ps| ==> Left(ps'[u]) <= Left(ps[u]))
    ensures AllLeft(ps') <= AllLeft(ps)
    ensures t < |ps| && Left(ps'[t]) < Left(ps[t]) ==> AllLeft(ps') < AllLeft(ps)
  {
    if ps != [] {
      var n := |ps| - 1;
      LessLeft(ps[..n], ps'[..n], if t < n then t else n);
    }
  }

  lemma StepLeavesLess(s: State, t: nat, s': State)
    requires Step(s, t, s')
    ensures AllLeft(s'.places) < AllLeft(s.places)
  {
    LessLeft(s.places, s'.places, t);
  }

  lemma {:induction false} AllLeftBound(ps: seq<Place>)
    ensures AllLeft(ps) <= 5 * |ps|
  {
    if ps != [] {
      AllLeftBound(ps[..|ps| - 1]);
    }
  }

  lemma {:induction false} RunLeaves(blockers: nat, run: seq<State>, k: nat)
    requires IsRun(blockers, run) && k < |run|
    ensures k + AllLeft(run[k].places) <= 5 * (blockers + 1)
  {
    if k == 0 {
      AllLeftBound(run[0].places);
    } else {
      RunLeaves(blockers, run, k - 1);
      assert Next(run[k - 1], run[k - 1 + 1]);
      var t :| Step(run[k - 1], t, run[k]);
      StepLeavesLess(run[k - 1], t, run[k]);
    }
  }

  /** Whatever the scheduling, after at most five steps of each thread all threads are through;
      a run that cannot go on has come to that. */
  lemma EveryRunEnds(blockers: nat, run: seq<State>)
    requires blockers >= 1 && IsRun(blockers, run)
    ensures |run| <= 5 * (blockers + 1) + 1
    ensures var s := run[|run| - 1];
            !(exists t, s' :: Step(s, t, s')) ==> forall t :: 0 <= t < |s.places| ==> s.places[t] == Done
  {
    RunLeaves(blockers, run, |run| - 1);
    NeverStuck(blockers, run);
  }

  // ---- the object that the threads share

  /** The counters, and where the threads are as far as its mutex and condition are concerned. */
  class WaitForThreads {
    var n: nat
    var waitFor: nat
    var places: seq<Place>

    function Now(): State
      reads this
    {
      State(n, waitFor, places)
    }

    constructor (blockers: nat)
      requires blockers >= 1
      ensures Now() == Init(blockers) && Invariant(Now())
    {
      n, waitFor := 0, 0;
      places := seq(blockers + 1, t => Outside);
      new;
      InitOk(blockers);
    }

    /** A thread gets the mutex, at the start of its call or after it was woken. */
    method Lock(t: nat)
      requires Invariant(Now()) && t < |places| && places[t] in {Outside, Woken} && MutexFree(Now())
      modifies this
      ensures Step(old(Now()), t, Now()) && Invariant(Now())
    {
      ghost var was := Now();
      places := places[t := if places[t] == Outside then Entered else Leaving];
      StepKeeps(was, t, Now());
    }

    /** From taking the mutex to waiting, or to the end of the call. */
    method Block(t: nat)
      requires Invariant(Now()) && t < |places| - 1 && places[t] == Entered
      modifies this
      ensures Step(old(Now()), t, Now()) && Invariant(Now())
    {
      ghost var was := Now();
      BlockKeeps(was, t, BlockBody(was, t));
      n := n + 1;
      assert waitFor == 0 || n <= waitFor;
      if waitFor > 0 && n == waitFor {
        places := places[t := Leaving];
        UnblockThreads();
      } else {
        places := places[t := Waiting];
      }
    }

    method ReleaseThreads(t: nat, num: nat)
      requires Invariant(Now()) && t == |places| - 1 == num && places[t] == Entered
      modifies this
      ensures Step(old(Now()), t, Now()) && Invariant(Now())
    {
      ghost var was := Now();
      ReleaseKeeps(was, t, ReleaseBody(was, t, num));
      if n >= num {
        places := places[t := Leaving];
        UnblockThreads();
      } else {
        waitFor := num;
        places := places[t := Waiting];
      }
    }

    method UnblockThreads()
      modifies this
      ensures Now() == Unblock(old(Now()))
    {
      n := 0;
      waitFor := 0;
      places := Wake(places);
    }

    method Unlock(t: nat)
      requires Invariant(Now()) && t < |places| && places[t] == Leaving
      modifies this
      ensures Step(old(Now()), t, Now()) && Invariant(Now())
    {
      ghost var was := Now();
      places := places[t := Done];
      StepKeeps(was, t, Now());
    }

    /** One step of a thread that can go on: every step of the state machine is one of these. */
    method GoOn(t: nat)
      requires Invariant(Now()) && CanGoOn(Now(), t)
      modifies this
      ensures Step(old(Now()), t, Now()) && Invariant(Now())
    {
      match places[t] {
        case Outside => Lock(t);
        case Woken => Lock(t);
        case Leaving => Unlock(t);
        case Entered =>
          if t < |places| - 1 {
            Block(t);
          } else {
            ReleaseThreads(t, |places| - 1);
          }
      }
    }

    /** Whichever thread is chosen each time, all come through. */
    method RunToEnd()
      requires Invariant(Now())
      modifies this
      ensures Invariant(Now()) && |places| == |old(places)| && forall t :: 0 <= t < |places| ==> places[t] == Done
    {
      while exists t :: 0 <= t < |places| && places[t] != Done
        invariant Invariant(Now()) && |places| == |old(places)|
        decreases AllLeft(places)
      {
        SomeoneCanGoOn(Now());
        var t: nat :| t < |places| && CanGoOn(Now(), t);
        ghost var was := Now();
        GoOn(t);
        StepLeavesLess(was, t, Now());
        StepKeeps(was, t, Now());
      }
    }
  }

  predicate CanGoOn(s: State, t: nat) {
    && t < |s.places|
    && match s.places[t]
       case Outside => MutexFree(s)
       case Woken => MutexFree(s)
       case Entered => true
       case Leaving => true
       case Waiting => false
       case Done => false
  }

  /** A thread can go on exactly if the state machine has a step for it. */
  lemma CanGoOnIff(s: State, t: nat)
    ensures CanGoOn(s, t) <==> exists s' :: Step(s, t, s')
  {
    if t < |s.places| {
      match s.places[t]
      case Outside =>
        assert MutexFree(s) ==> Step(s, t, s.(places := s.places[t := Entered]));
      case Woken =>
        assert MutexFree(s) ==> Step(s, t, s.(places := s.places[t := Leaving]));
      case Entered =>
        assert Step(s, t, if t < |s.places| - 1 then BlockBody(s, t) else ReleaseBody(s, t, |s.places| - 1));
      case Leaving =>
        assert Step(s, t, s.(places := s.places[t := Done]));
      case Waiting =>
      case Done =>
    }
  }

  lemma SomeoneCanGoOn(s: State)
    requires Invariant(s) && exists t :: 0 <= t < |s.places| && s.places[t] != Done
    ensures exists t: nat :: t < |s.places| && CanGoOn(s, t)
  {
    SomeStep(s);
    var t, s' :| Step(s, t, s');
    CanGoOnIff(s, t);
  }
}

/** The work-sharing computer: workers claim indices from one counter, in any interleaving. */
module Parallel {
  import opened Words

  /** What a task does: give a value, give false, or throw. Only ExecuteUntil asks for a boolean. */
  datatype Outcome<T> = Good(value: T) | Refused | Thrown

  datatype Config<!T> = Config(total: nat, task: nat -> Outcome<T>, until: bool)

  /** Where a worker stands in its loop. */
  datatype Worker<T> =
    | Fetch                          // about to take the next index
    | Check(index: nat)              // ExecuteUntil: about to read the continue flag
    | Run(index: nat)                // about to run its task
    | Store(index: nat, value: T)    // Transform: about to store the result
    | Stop                           // ExecuteUntil: about to clear the continue flag
    | Done(result: bool)

  /** The shared state, and how often each index was run. */
  datatype State<T> = State(current: nat, go: bool, workers: seq<Worker<T>>, out: seq<Option<T>>, ran: multiset<nat>)

  /** The number of threads started. */
  function Threads(total: nat, parallel: nat): nat { if total < parallel then total else parallel }

  function Start<T>(c: Config<T>, parallel: nat): State<T> {
    State(0, true, seq(Threads(c.total, parallel), _ => Fetch), seq(c.total, _ => None), multiset{})
  }

  /** One thread for each index, but no more than asked for, all before their first index. */
  lemma StartWorkers<T>(c: Config<T>, parallel: nat)
    ensures var s := Start(c, parallel);
            && |s.workers| <= parallel && |s.workers| <= c.total
            && (|s.workers| == parallel || |s.workers| == c.total)
            && forall w :: 0 <= w < |s.workers| ==> s.workers[w] == Fetch
  {
  }

  /** One atomic step of worker w. */
  function Step<T>(c: Config<T>, s: State<T>, w: nat): State<T>
    requires w < |s.workers|
  {
    match s.workers[w]
    case Fetch =>
      var at := if s.current >= c.total then Done(true) else if c.until then Check(s.current) else Run(s.current);
      s.(current := s.current + 1, workers := s.workers[w := at])
    case Check(i) => s.(workers := s.workers[w := if s.go then Run(i) else Done(true)])
    case Run(i) =>
      var at := match c.task(i)
                case Good(v) => if c.until then Fetch else Store(i, v)
                case Refused => if c.until then Stop else Fetch
                case Thrown => Done(false);
      s.(workers := s.workers[w := at], ran := s.ran + multiset{i})
    case Store(i, v) =>
      s.(workers := s.workers[w := Fetch], out := if i < |s.out| then s.out[i := Some(v)] else s.out)
    case Stop => s.(go := false, workers := s.workers[w := Done(false)])
    case Done(_) => s
  }

  /** The state after a schedule: which worker moves at each turn. */
  function After<T>(c: Config<T>, parallel: nat, schedule: seq<nat>): State<T> {
    if schedule == [] then Start(c, parallel)
    else
      var s, w := After(c, parallel, schedule[..|schedule|-1]), schedule[|schedule|-1];
      if w < |s.workers| then Step(c, s, w) else s
  }

  predicate Ended<T>(s: State<T>) { forall w :: 0 <= w < |s.workers| ==> s.workers[w].Done? }

  /** What the caller gets once all futures are in. */
  predicate Result<T>(s: State<T>) { forall w :: 0 <= w < |s.workers| ==> s.workers[w] != Done(false) }

  // ----- the invariant

  ghost predicate Holds<T>(p: Worker<T>, i: nat) {
    (p.Check? || p.Run? || p.Store?) && p.index == i
  }

  ghost predicate Held<T>(s: State<T>, i: nat) {
    exists w :: 0 <= w < |s.workers| && Holds(s.workers[w], i)
  }

  ghost predicate Failing<T>(p: Worker<T>) { p.Stop? || p == Done(false) }

  ghost predicate Failed<T>(s: State<T>) {
    exists w :: 0 <= w < |s.workers| && Failing(s.workers[w])
  }

  /** Index i has been run to the end. */
  ghost predicate Finished<T>(c: Config<T>, s: State<T>, i: nat) {
    && s.ran[i] == 1 && i < |s.out|
    && if c.until then c.task(i).Good? else c.task(i).Good? && s.out[i] == Some(c.task(i).value)
  }

  /** Tasks of Transform do not return a verdict. */
  ghost predicate Proper<T>(c: Config<T>) {
    !c.until ==> forall i: nat :: i < c.total ==> !c.task(i).Refused?
  }

  ghost predicate AllGood<T>(c: Config<T>) {
    forall i: nat :: i < c.total ==> c.task(i).Good?
  }

  /** What a worker's place tells about the shared state. */
  ghost predicate Placed<T>(c: Config<T>, s: State<T>, p: Worker<T>) {
    && ((p.Check? || p.Run?) ==> p.index < s.current && p.index < c.total && s.ran[p.index] == 0)
    && (p.Check? ==> c.until)
    && (p.Store? ==>
          && !c.until && p.index < s.current && p.index < c.total
          && s.ran[p.index] == 1 && c.task(p.index) == Good(p.value))
    && (p == Done(true) ==> s.current >= c.total || !s.go)
    && (Failing(p) ==> !AllGood(c))
  }

  ghost predicate Inv<T>(c: Config<T>, s: State<T>) {
    && |s.out| == c.total
    && (forall w :: 0 <= w < |s.workers| ==> Placed(c, s, s.workers[w]))
    && (forall v, w, i: nat :: 0 <= v < w < |s.workers| && Holds(s.workers[v], i) ==> !Holds(s.workers[w], i))
    && (forall i: nat :: i >= s.current ==> s.ran[i] == 0)
    && (forall i: nat :: s.ran[i] <= 1)
    && (forall i: nat :: i < s.current && i < c.total ==> Held(s, i) || Finished(c, s, i) || Failed(s))
    && (!s.go ==> Failed(s))
  }

  // ----- every step keeps it

  lemma StillHeld<T>(s: State<T>, t: State<T>, w: nat, i: nat)
    requires w < |s.workers| == |t.workers| && t.workers == s.workers[w := t.workers[w]]
    requires Held(s, i) && (Holds(s.workers[w], i) ==> Holds(t.workers[w], i))
    ensures Held(t, i)
  {
    var v :| 0 <= v < |s.workers| && Holds(s.workers[v], i);
    assert Holds(t.workers[v], i);
  }

  lemma StillFailed<T>(s: State<T>, t: State<T>, w: nat)
    requires w < |s.workers| == |t.workers| && t.workers == s.workers[w := t.workers[w]]
    requires Failed(s) && (Failing(s.workers[w]) ==> Failing(t.workers[w]))
    ensures Failed(t)
  {
    var v :| 0 <= v < |s.workers| && Failing(s.workers[v]);
    assert Failing(t.workers[v]);
  }

  lemma FetchKeeps<T>(c: Config<T>, s: State<T>, w: nat)
    requires Inv(c, s) && w < |s.workers| && s.workers[w].Fetch?
    ensures Inv(c, Step(c, s, w))
  {
    var t := Step(c, s, w);
    forall i: nat | i < t.current && i < c.total ensures Held(t, i) || Finished(c, t, i) || Failed(t) {
      if i == s.current {
        assert Holds(t.workers[w], i);
      } else if Held(s, i) {
        StillHeld(s, t, w, i);
      } else if Failed(s) {
        StillFailed(s, t, w);
      }
    }
    if !t.go { StillFailed(s, t, w); }
  }

  lemma CheckKeeps<T>(c: Config<T>, s: State<T>, w: nat)
    requires Inv(c, s) && w < |s.workers| && s.workers[w].Check?
    ensures Inv(c, Step(c, s, w))
  {
    var t := Step(c, s, w);
    if !s.go { StillFailed(s, t, w); }
    forall i: nat | i < t.current && i < c.total ensures Held(t, i) || Finished(c, t, i) || Failed(t) {
      if Failed(s) {
        StillFailed(s, t, w);
      } else if Held(s, i) {
        StillHeld(s, t, w, i);
      }
    }
  }

  lemma RunKeeps<T>(c: Config<T>, s: State<T>, w: nat)
    requires Inv(c, s) && Proper(c) && w < |s.workers| && s.workers[w].Run?
    ensures Inv(c, Step(c, s, w))
  {
    var t, k := Step(c, s, w), s.workers[w].index;
    forall v | 0 <= v < |t.workers| ensures Placed(c, t, t.workers[v]) {
      if v != w { assert !Holds(s.workers[v], k) by { OneHolder(c, s, v, w, k); } }
    }
    forall i: nat | i < t.current && i < c.total ensures Held(t, i) || Finished(c, t, i) || Failed(t) {
      if Failed(s) {
        StillFailed(s, t, w);
      } else if i != k && Held(s, i) {
        StillHeld(s, t, w, i);
      } else if i == k {
        assert Failing(t.workers[w]) || Holds(t.workers[w], k) || Finished(c, t, k);
      }
    }
    if !t.go { StillFailed(s, t, w); }
  }

  lemma OneHolder<T>(c: Config<T>, s: State<T>, v: nat, w: nat, i: nat)
    requires Inv(c, s) && v < |s.workers| && w < |s.workers| && v != w && Holds(s.workers[w], i)
    ensures !Holds(s.workers[v], i)
  {
  }

  lemma StoreKeeps<T>(c: Config<T>, s: State<T>, w: nat)
    requires Inv(c, s) && w < |s.workers| && s.workers[w].Store?
    ensures Inv(c, Step(c, s, w))
  {
    var t, k := Step(c, s, w), s.workers[w].index;
    forall i: nat | i < t.current && i < c.total ensures Held(t, i) || Finished(c, t, i) || Failed(t) {
      if Failed(s) {
        StillFailed(s, t, w);
      } else if i != k && Held(s, i) {
        StillHeld(s, t, w, i);
      } else if i == k {
        assert Finished(c, t, k);
      }
    }
    if !t.go { StillFailed(s, t, w); }
  }

  lemma StopKeeps<T>(c: Config<T>, s: State<T>, w: nat)
    requires Inv(c, s) && w < |s.workers| && s.workers[w].Stop?
    ensures Inv(c, Step(c, s, w))
  {
    var t := Step(c, s, w);
    assert Failing(t.workers[w]);
    assert forall i: nat :: Holds(t.workers[w], i) ==> false;
  }

  lemma StepKeeps<T>(c: Config<T>, s: State<T>, w: nat)
    requires Inv(c, s) && Proper(c) && w < |s.workers|
    ensures Inv(c, Step(c, s, w))
  {
    hide Inv;
    match s.workers[w]
    case Fetch => FetchKeeps(c, s, w);
    case Check(_) => CheckKeeps(c, s, w);
    case Run(_) => RunKeeps(c, s, w);
    case Store(_, _) => StoreKeeps(c, s, w);
    case Stop => StopKeeps(c, s, w);
    case Done(_) =>
  }

  lemma {:induction false} AlwaysInv<T>(c: Config<T>, parallel: nat, schedule: seq<nat>)
    requires Proper(c)
    ensures Inv(c, After(c, parallel, schedule)) && |After(c, parallel, schedule).workers| == Threads(c.total, parallel)
  {
    hide Inv, Step;
    if schedule == [] {
      StartInv(c, parallel);
    } else {
      AlwaysInv(c, parallel, schedule[..|schedule|-1]);
      var s, w := After(c, parallel, schedule[..|schedule|-1]), schedule[|schedule|-1];
      if w < |s.workers| {
        StepKeeps(c, s, w);
        StepWorkers(c, s, w);
      }
    }
  }

  lemma StartInv<T>(c: Config<T>, parallel: nat)
    ensures Inv(c, Start(c, parallel))
  {
  }

  lemma StepWorkers<T>(c: Config<T>, s: State<T>, w: nat)
    requires w < |s.workers|
    ensures |Step(c, s, w).workers| == |s.workers|
  {
  }

  // ----- what every ended run has done

  /** No index is ever run twice, whatever the schedule. */
  lemma AtMostOnce<T>(c: Config<T>, parallel: nat, schedule: seq<nat>, i: nat)
    requires Proper(c)
    ensures After(c, parallel, schedule).ran[i] <= if i < c.total then 1 else 0
  {
    hide Step, After;
    AlwaysInv(c, parallel, schedule);
    if i >= c.total { RanBelow(c, parallel, schedule, i); }
  }

  lemma {:induction false} RanBelow<T>(c: Config<T>, parallel: nat, schedule: seq<nat>, i: nat)
    requires Proper(c) && i >= c.total
    ensures After(c, parallel, schedule).ran[i] == 0
  {
    if schedule != [] {
      var before := schedule[..|schedule|-1];
      RanBelow(c, parallel, before, i);
      AlwaysInv(c, parallel, before);
    }
  }

  /** With at least one worker, or nothing to do, an ended run returns true exactly when every task is good,
      and then every index has been run exactly once and, for Transform, holds its task's value. */
  lemma RunResult<T>(c: Config<T>, parallel: nat, schedule: seq<nat>)
    requires Proper(c) && Ended(After(c, parallel, schedule)) && (parallel > 0 || c.total == 0)
    ensures var s := After(c, parallel, schedule);
            && (Result(s) <==> AllGood(c))
            && (Result(s) ==> forall i: nat :: i < c.total ==> Finished(c, s, i))
  {
    hide After, Inv;
    AlwaysInv(c, parallel, schedule);
    var s := After(c, parallel, schedule);
    if Result(s) {
      forall i: nat | i < c.total ensures Finished(c, s, i) { AllDone(c, s, i); }
      FinishedGood(c, s);
    } else {
      OneFailed(c, s);
    }
  }

  lemma AllDone<T>(c: Config<T>, s: State<T>, i: nat)
    requires Inv(c, s) && Ended(s) && Result(s) && s.workers != [] && i < c.total
    ensures Finished(c, s, i)
  {
    assert s.workers[0] == Done(true);
    assert !Failed(s) && !Held(s, i);
    assert Placed(c, s, s.workers[0]);
  }

  lemma FinishedGood<T>(c: Config<T>, s: State<T>)
    requires forall i: nat :: i < c.total ==> Finished(c, s, i)
    ensures AllGood(c)
  {
    forall i: nat | i < c.total ensures c.task(i).Good? { assert Finished(c, s, i); }
  }

  lemma OneFailed<T>(c: Config<T>, s: State<T>)
    requires Inv(c, s) && !Result(s)
    ensures !AllGood(c)
  {
    var w :| 0 <= w < |s.workers| && s.workers[w] == Done(false);
    assert Placed(c, s, s.workers[w]);
  }

  /** Transform is the sequential map. */
  lemma TransformIsMap<T>(c: Config<T>, parallel: nat, schedule: seq<nat>)
    requires !c.until && AllGood(c) && Ended(After(c, parallel, schedule)) && (parallel > 0 || c.total == 0)
    ensures Result(After(c, parallel, schedule))
    ensures After(c, parallel, schedule).out == seq(c.total, i requires 0 <= i < c.total => Some(c.task(i).value))
  {
    RunResult(c, parallel, schedule);
    AlwaysInv(c, parallel, schedule);
    var s := After(c, parallel, schedule);
    forall i: nat | i < c.total ensures s.out[i] == Some(c.task(i).value) { assert Finished(c, s, i); }
  }

  /** Without a worker nothing runs and the answer is still true. */
  lemma {:induction false} NoWorkers<T>(c: Config<T>, schedule: seq<nat>)
    ensures var s := After(c, 0, schedule);
            Ended(s) && Result(s) && s.ran == multiset{} && s.out == seq(c.total, _ => None)
  {
    if schedule != [] { NoWorkers(c, schedule[..|schedule|-1]); }
  }

  // ----- every run ends

  function Rank<T>(p: Worker<T>): nat {
    match p
    case Fetch => 1 case Check(_) => 5 case Run(_) => 4 case Store(_, _) => 3 case Stop => 2 case Done(_) => 0
  }

  function Ranks<T>(ws: seq<Worker<T>>): nat {
    if ws == [] then 0 else Ranks(ws[..|ws|-1]) + Rank(ws[|ws|-1])
  }

  function Measure<T>(c: Config<T>, s: State<T>): nat {
    Ranks(s.workers) + 5 * if s.current < c.total then c.total - s.current else 0
  }

  lemma {:induction false} RanksUpdate<T>(ws: seq<Worker<T>>, w: nat, p: Worker<T>)
    requires w < |ws|
    ensures Ranks(ws[w := p]) == Ranks(ws) - Rank(ws[w]) + Rank(p)
  {
    var n := |ws| - 1;
    if w < n {
      RanksUpdate(ws[..n], w, p);
      assert ws[w := p][..n] == ws[..n][w := p];
    } else {
      assert ws[w := p][..n] == ws[..n];
    }
  }

  lemma StepProgress<T>(c: Config<T>, s: State<T>, w: nat)
    requires w < |s.workers| && !s.workers[w].Done?
    ensures Measure(c, Step(c, s, w)) < Measure(c, s)
  {
    RanksUpdate(s.workers, w, Step(c, s, w).workers[w]);
    assert Step(c, s, w).workers == s.workers[w := Step(c, s, w).workers[w]];
  }

  /** The turns of a schedule in which the chosen worker still had something to do. */
  ghost function Moves<T>(c: Config<T>, parallel: nat, schedule: seq<nat>): nat {
    if schedule == [] then 0
    else
      var before, w := schedule[..|schedule|-1], schedule[|schedule|-1];
      var s := After(c, parallel, before);
      Moves(c, parallel, before) + if w < |s.workers| && !s.workers[w].Done? then 1 else 0
  }

  /** No run goes on forever: whatever the schedule, at most this many turns do anything. */
  lemma {:induction false} MovesBounded<T>(c: Config<T>, parallel: nat, schedule: seq<nat>)
    ensures Moves(c, parallel, schedule) + Measure(c, After(c, parallel, schedule))
            <= Threads(c.total, parallel) + 5 * c.total
  {
    hide Step;
    if schedule == [] {
      StartRanks<T>(Threads(c.total, parallel));
    } else {
      var before, w := schedule[..|schedule|-1], schedule[|schedule|-1];
      MovesBounded(c, parallel, before);
      var s := After(c, parallel, before);
      if w < |s.workers| {
        if s.workers[w].Done? { DoneStays(c, s, w); } else { StepProgress(c, s, w); }
      }
    }
  }

  lemma DoneStays<T>(c: Config<T>, s: State<T>, w: nat)
    requires w < |s.workers| && s.workers[w].Done?
    ensures Step(c, s, w) == s
  {
  }

  lemma {:induction false} StartRanks<T>(n: nat)
    ensures Ranks(seq(n, _ => Worker<T>.Fetch)) == n
  {
    if n > 0 {
      StartRanks<T>(n - 1);
      assert seq(n, _ => Worker<T>.Fetch)[..n-1] == seq(n - 1, _ => Worker<T>.Fetch);
    }
  }

  // ----- stopping early

  /** The workers that are about to run a task. */
  function Running<T>(ws: seq<Worker<T>>): nat {
    if ws == [] then 0 else Running(ws[..|ws|-1]) + if ws[|ws|-1].Run? then 1 else 0
  }

  lemma {:induction false} RunningChanged<T>(ws: seq<Worker<T>>, w: nat, p: Worker<T>)
    requires w < |ws|
    ensures Running(ws[w := p]) == Running(ws) + (if p.Run? then 1 else 0) - (if ws[w].Run? then 1 else 0)
  {
    var n, now := |ws| - 1, ws[w := p];
    if w == n {
      assert now[..n] == ws[..n];
    } else {
      RunningChanged(ws[..n], w, p);
      assert now[..n] == ws[..n][w := p] && now[n] == ws[n];
    }
  }

  /** Once the continue flag is cleared, no schedule runs more tasks than the workers had already begun. */
  lemma {:induction false} StopsEarly<T>(c: Config<T>, parallel: nat, schedule: seq<nat>, more: seq<nat>)
    requires c.until && !After(c, parallel, schedule).go
    ensures var s, t := After(c, parallel, schedule), After(c, parallel, schedule + more);
            && !t.go && |s.ran| <= |t.ran| <= |s.ran| + Running(s.workers)
            && |t.ran| + Running(t.workers) <= |s.ran| + Running(s.workers)
  {
    hide Step, Running, Start;
    if more == [] {
      assert schedule + more == schedule;
    } else {
      var before, w := more[..|more|-1], more[|more|-1];
      StopsEarly(c, parallel, schedule, before);
      var all := schedule + more;
      assert all[..|all|-1] == schedule + before;
      var s := After(c, parallel, schedule + before);
      if w < |s.workers| { StepStopped(c, s, w); }
    }
  }

  lemma StepStopped<T>(c: Config<T>, s: State<T>, w: nat)
    requires c.until && !s.go && w < |s.workers|
    ensures var t := Step(c, s, w);
            !t.go && |s.ran| <= |t.ran| && |t.ran| + Running(t.workers) <= |s.ran| + Running(s.workers)
  {
    var t := Step(c, s, w);
    assert t.workers == s.workers[w := t.workers[w]];
    RunningChanged(s.workers, w, t.workers[w]);
  }

  /** A task that says stop makes its worker clear the flag in its next two steps. */
  lemma RefusalClears<T>(c: Config<T>, s: State<T>, w: nat)
    requires c.until && w < |s.workers| && s.workers[w].Run? && c.task(s.workers[w].index).Refused?
    ensures !Step(c, Step(c, s, w), w).go
  {
  }
}

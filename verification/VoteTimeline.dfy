/** The timeline of the votes: when each target height is set up, enrolled and published, across rollbacks. */
module VoteTimeline {

  const DISTRIBUTE_INTERVAL := 15
  const ENROLL_INTERVAL := 30
  const CONSENSUS_INTERVAL := DISTRIBUTE_INTERVAL + ENROLL_INTERVAL + 1

  /** The block heights at which a vote went through each phase. */
  datatype Vote = Vote(setups: seq<int>, enrolls: seq<int>, publishes: seq<int>)

  const NEW_VOTE := Vote([], [], [])

  type VoteMap = map<int, Vote>

  // ----- what one call does

  /** The vote of target x after Evolve at height h. */
  ghost function Evolved(x: int, v: Vote, h: int): Vote {
    if x == h + CONSENSUS_INTERVAL then v.(setups := v.setups + [h])
    else if x == h + DISTRIBUTE_INTERVAL + 1 then v.(enrolls := v.enrolls + [h])
    else if x == h + 1 then v.(publishes := v.publishes + [h])
    else v
  }

  ghost function EvolveMap(m: VoteMap, h: int): VoteMap {
    map x | x in m.Keys + {h + CONSENSUS_INTERVAL} :: Evolved(x, if x in m then m[x] else NEW_VOTE, h)
  }

  /** The targets a rollback keeps. */
  predicate Survives(x: int, from: int, to: int) {
    && x <= to + CONSENSUS_INTERVAL
    && !(to + DISTRIBUTE_INTERVAL < x <= from + DISTRIBUTE_INTERVAL)
    && !(to + 1 < x <= from + 1)
  }

  ghost function RollbackMap(m: VoteMap, from: int, to: int): VoteMap {
    map x | x in m && Survives(x, from, to) :: m[x]
  }

  class CMvDelegate {
    var mapVote: VoteMap

    constructor ()
      ensures mapVote == map[]
    {
      mapVote := map[];
    }

    method Evolve(height: int)
      modifies this
      ensures mapVote == EvolveMap(old(mapVote), height)
    {
      var target, enrollEnd, publish := height + CONSENSUS_INTERVAL, height + DISTRIBUTE_INTERVAL + 1, height + 1;
      var vote := if target in mapVote then mapVote[target] else NEW_VOTE;
      mapVote := mapVote[target := vote.(setups := vote.setups + [height])];
      if enrollEnd in mapVote {
        vote := mapVote[enrollEnd];
        mapVote := mapVote[enrollEnd := vote.(enrolls := vote.enrolls + [height])];
      }
      if publish in mapVote {
        vote := mapVote[publish];
        mapVote := mapVote[publish := vote.(publishes := vote.publishes + [height])];
      }
    }

    /** Erase the keys above low, up to and including high. */
    method EraseRange(low: int, high: int)
      modifies this
      ensures mapVote == map x | x in old(mapVote) && !(low < x <= high) :: old(mapVote)[x]
    {
      mapVote := map x | x in mapVote && !(low < x <= high) :: mapVote[x];
    }

    method Rollback(from: int, to: int)
      requires to <= from
      modifies this
      ensures mapVote == RollbackMap(old(mapVote), from, to) - {from + 1}
      ensures to < from ==> mapVote == RollbackMap(old(mapVote), from, to)
    {
      mapVote := map x | x in mapVote && x <= to + CONSENSUS_INTERVAL :: mapVote[x];
      EraseRange(to + DISTRIBUTE_INTERVAL, from + DISTRIBUTE_INTERVAL);
      EraseRange(to + 1, from + 1);
      mapVote := mapVote - {from + 1};
    }
  }

  // ----- runs

  /** A block is added, and the vote evolves unless its enrolment data is missing; or the chain falls back. */
  datatype Event = Block(evolved: bool) | Back(to: int)

  datatype State = State(height: int, votes: VoteMap)

  ghost predicate Possible(s: State, e: Event) { e.Back? ==> e.to < s.height }

  ghost function Next(s: State, e: Event): State
    requires Possible(s, e)
  {
    match e
    case Block(evolved) => State(s.height + 1, if evolved then EvolveMap(s.votes, s.height + 1) else s.votes)
    case Back(to) => State(to, RollbackMap(s.votes, s.height, to))
  }

  ghost predicate PossibleRun(start: int, run: seq<Event>)
    decreases |run|, 0
  {
    run == [] || (PossibleRun(start, run[..|run|-1]) && Possible(StateAfter(start, run[..|run|-1]), run[|run|-1]))
  }

  ghost function StateAfter(start: int, run: seq<Event>): State
    requires PossibleRun(start, run)
    decreases |run|, 1
  {
    if run == [] then State(start, map[])
    else Next(StateAfter(start, run[..|run|-1]), run[|run|-1])
  }

  ghost predicate AllAt(s: seq<int>, h: int) { forall i :: 0 <= i < |s| ==> s[i] == h }

  /** The phases of target x happen at its own heights only; it is set up once, at a height still on the
      chain, and published at most once, also at a height still on the chain. */
  ghost predicate OnTime(x: int, v: Vote, height: int) {
    && v.setups == [x - CONSENSUS_INTERVAL] && x - CONSENSUS_INTERVAL <= height
    && AllAt(v.enrolls, x - DISTRIBUTE_INTERVAL - 1)
    && AllAt(v.publishes, x - 1) && |v.publishes| <= 1 && (v.publishes != [] ==> x - 1 <= height)
  }

  ghost predicate Timely(s: State) { forall x :: x in s.votes ==> OnTime(x, s.votes[x], s.height) }

  lemma NextTimely(s: State, e: Event)
    requires Timely(s) && Possible(s, e)
    ensures Timely(Next(s, e))
  {
  }

  /** In every run, with any rollbacks, every vote is on time. */
  lemma {:induction false} RunTimely(start: int, run: seq<Event>)
    requires PossibleRun(start, run)
    ensures Timely(StateAfter(start, run))
  {
    hide Timely, Next;
    if run == [] {
      NoVotes(start);
    } else {
      RunTimely(start, run[..|run|-1]);
      NextTimely(StateAfter(start, run[..|run|-1]), run[|run|-1]);
    }
  }

  lemma NoVotes(start: int)
    ensures Timely(State(start, map[]))
  {
  }

  // ----- what a block does

  /** A block at height h with its data sets up target h + 46, enrols target h + 16, publishes target h + 1, and
      touches no other vote. */
  lemma BlockPhases(s: State, x: int)
    ensures var t, h := Next(s, Block(true)), s.height + 1;
            && t.height == h
            && (x == h + 46 ==>
                  && x in t.votes
                  && (x in s.votes ==> t.votes[x] == s.votes[x].(setups := s.votes[x].setups + [h]))
                  && (x !in s.votes ==> t.votes[x] == Vote([h], [], [])))
            && (x != h + 46 ==> (x in t.votes <==> x in s.votes))
            && (x in s.votes && x == h + 16 ==> t.votes[x] == s.votes[x].(enrolls := s.votes[x].enrolls + [h]))
            && (x in s.votes && x == h + 1 ==> t.votes[x] == s.votes[x].(publishes := s.votes[x].publishes + [h]))
            && (x in s.votes && x != h + 46 && x != h + 16 && x != h + 1 ==> t.votes[x] == s.votes[x])
  {
  }

  /** In every run: when a block with its data reaches height h, target h + 1 is published then if it was there. */
  lemma RunPublishes(start: int, run: seq<Event>)
    requires run != [] && run[|run|-1] == Block(true) && PossibleRun(start, run)
    ensures var s, t := StateAfter(start, run[..|run|-1]), StateAfter(start, run);
            t.height + 1 in s.votes ==>
              t.height + 1 in t.votes
              && t.votes[t.height + 1].publishes == s.votes[t.height + 1].publishes + [t.height]
  {
    hide Next;
    var s := StateAfter(start, run[..|run|-1]);
    BlockPhases(s, s.height + 2);
  }

  // ----- what a rollback leaves behind

  /** A vote survives a rollback, unchanged, exactly if it was set up at a height that stays, is not enrolled at
      the height fallen back to or at one above it and below the last, and is not published at a removed height. */
  lemma RollbackKeeps(s: State, to: int, x: int)
    requires to < s.height
    ensures x in Next(s, Back(to)).votes
       <==> x in s.votes && x - 46 <= to && !(to <= x - 16 < s.height) && !(to < x - 1 <= s.height)
    ensures x in Next(s, Back(to)).votes ==> Next(s, Back(to)).votes[x] == s.votes[x]
  {
  }

  /** After a rollback no surviving vote was set up or published at a removed height, and one that was enrolled
      at a removed height is exactly the target from + 16, which survives exactly when at most 30 blocks go. */
  lemma RollbackRemoves(start: int, run: seq<Event>, to: int)
    requires PossibleRun(start, run) && to < StateAfter(start, run).height
    ensures var s := StateAfter(start, run);
            var t := Next(s, Back(to));
            forall x :: x in t.votes ==>
              && AllAt(t.votes[x].setups, x - CONSENSUS_INTERVAL) && x - CONSENSUS_INTERVAL <= to
              && (t.votes[x].publishes != [] ==> x - 1 <= to)
              && (t.votes[x].enrolls != [] && to < x - DISTRIBUTE_INTERVAL - 1 <= s.height ==>
                    x == s.height + DISTRIBUTE_INTERVAL + 1)
    ensures var s := StateAfter(start, run);
            var x := s.height + DISTRIBUTE_INTERVAL + 1;
            x in s.votes ==> (x in Next(s, Back(to)).votes <==> s.height - to <= ENROLL_INTERVAL)
  {
    RunTimely(start, run);
    NextTimely(StateAfter(start, run), Back(to));
  }

  /** The vote enrolled at the height the chain falls back to is lost, although that height stays. */
  lemma RollbackLoses(s: State, to: int)
    requires to < s.height
    ensures to + DISTRIBUTE_INTERVAL + 1 !in Next(s, Back(to)).votes
  {
  }

  // ----- enrolled once

  /** Target x has been enrolled at most once, and only if the height for it is on the chain. */
  ghost predicate EnrolledOnce(s: State, x: int) {
    x in s.votes ==> |s.votes[x].enrolls| <= 1 && (s.votes[x].enrolls != [] ==> x - DISTRIBUTE_INTERVAL - 1 <= s.height)
  }

  /** No rollback of at most 30 blocks started at the height where x is enrolled. */
  ghost predicate NeverFromEnrolment(start: int, run: seq<Event>, x: int)
    requires PossibleRun(start, run)
  {
    run == [] ||
    var s, e := StateAfter(start, run[..|run|-1]), run[|run|-1];
    && NeverFromEnrolment(start, run[..|run|-1], x)
    && (e.Back? ==> s.height != x - DISTRIBUTE_INTERVAL - 1 || s.height - e.to > ENROLL_INTERVAL)
  }

  lemma {:induction false} RunEnrolsOnce(start: int, run: seq<Event>, x: int)
    requires PossibleRun(start, run) && NeverFromEnrolment(start, run, x)
    ensures EnrolledOnce(StateAfter(start, run), x)
  {
    if run != [] {
      RunEnrolsOnce(start, run[..|run|-1], x);
    }
  }

  /** Step by step the condition is exact: what breaks it is a rollback of at most 30 blocks that starts at the
      height where x was just enrolled. */
  lemma StepEnrolsOnce(s: State, e: Event, x: int)
    requires Timely(s) && Possible(s, e) && EnrolledOnce(s, x)
    ensures EnrolledOnce(Next(s, e), x)
       <==> !(e.Back? && x == s.height + DISTRIBUTE_INTERVAL + 1 && s.height - e.to <= ENROLL_INTERVAL
              && x in s.votes && s.votes[x].enrolls != [])
  {
  }

  /** Otherwise it is enrolled twice: fall back by one block from the height of its enrolment and go on. */
  lemma EnrolledTwice(s: State)
    requires Timely(s) && s.height + DISTRIBUTE_INTERVAL + 1 in s.votes
    requires s.votes[s.height + DISTRIBUTE_INTERVAL + 1].enrolls != []
    ensures var x := s.height + DISTRIBUTE_INTERVAL + 1;
            var t := Next(Next(s, Back(s.height - 1)), Block(true));
            && t.height == s.height && x in t.votes && |t.votes[x].enrolls| >= 2
            && t.votes[x].enrolls == s.votes[x].enrolls + [s.height]
  {
  }

  /** Blocks only, each with its enrolment data. */
  function Blocks(n: nat): (run: seq<Event>)
    ensures |run| == n
  {
    if n == 0 then [] else Blocks(n - 1) + [Block(true)]
  }

  /** The first target is set up by the first block, enrolled by block 31 and published by block 46, the one before
      its own height. */
  lemma {:induction false} GoingUp(start: int, n: nat)
    requires 1 <= n <= 46
    ensures PossibleRun(start, Blocks(n))
    ensures var s, x := StateAfter(start, Blocks(n)), start + 47;
            && s.height == start + n && x in s.votes
            && s.votes[x] == Vote([start + 1], if n >= 31 then [start + 31] else [], if n == 46 then [x - 1] else [])
  {
    hide Next;
    var run, x := Blocks(n), start + 47;
    assert run[..n-1] == Blocks(n - 1) && run[n-1] == Block(true);
    if n == 1 {
      BlockPhases(State(start, map[]), x);
    } else {
      GoingUp(start, n - 1);
      BlockPhases(StateAfter(start, Blocks(n - 1)), x);
    }
  }

  /** The run from the start in which this happens. */
  function TwiceEnrolling(start: int): seq<Event> {
    Blocks(ENROLL_INTERVAL + 1) + [Back(start + ENROLL_INTERVAL)] + [Block(true)]
  }

  lemma TwiceFromTheStart(start: int)
    ensures PossibleRun(start, TwiceEnrolling(start))
    ensures var t, x := StateAfter(start, TwiceEnrolling(start)), start + 1 + CONSENSUS_INTERVAL;
            var h := start + ENROLL_INTERVAL + 1;
            t.height == h && x in t.votes && t.votes[x].enrolls == [h, h]
  {
    hide Next, Blocks, Timely;
    var up := Blocks(ENROLL_INTERVAL + 1);
    var back := up + [Back(start + ENROLL_INTERVAL)];
    var run := back + [Block(true)];
    GoingUp(start, ENROLL_INTERVAL + 1);
    RunTimely(start, up);
    assert back[..|back|-1] == up && run[..|run|-1] == back;
    EnrolledTwice(StateAfter(start, up));
  }
}

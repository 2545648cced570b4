/** A sender that is collected twice: what repeats, and the wrong secret that comes of it. */
module RepeatedSender {
  import opened Words
  import opened Scalars
  import opened Polynomials
  import opened Boxes
  import opened Interpolation
  import opened SecretShare
  import opened Enrolment
  import opened Collection
  import opened Protocol

  ghost function TwiceRun(cs: seq<Candidate>, boxes: map<Word, OpenedBox>, nonces: map<Word, Word>, s: Word): Net
    requires GoodSetup(cs, boxes, nonces)
  {
    Run(Start(cs, boxes, nonces), [Publish(s), Publish(s)])
  }

  lemma TwoSteps(n: Net, e: Event, f: Event)
    ensures Run(n, [e, f]) == Step(Step(n, e), f)
  {
    hide Step;
    assert [e, f][..1] == [e] && [e][..0] == [];
    assert Run(n, [e]) == Step(Run(n, []), e);
  }

  /** The message an honest party publishes before it has received anything. */
  lemma FirstMessage(cs: seq<Candidate>, boxes: map<Word, OpenedBox>, nonces: map<Word, Word>, s: Word)
    returns (m: ShareMap)
    requires GoodSetup(cs, boxes, nonces) && s in boxes
    ensures var n := Start(cs, boxes, nonces);
            && NetInv(n, cs, boxes) && n.log == [] && n.collector.openedShare == map[]
            && n.parties[s].Published() == Some(m) && n.collector.CollectOk(s, m)
            && s in m && |m[s]| == WeightOf(cs, s) && n.parties[s].index == RangeOf(cs, s).value.0
            && boxes[s].Sufficient(T(cs)) && forall i :: 0 <= i < |m[s]| ==>
                 m[s][i] == boxes[s].At(T(cs), n.parties[s].index + i)
  {
    hide GoodSetup, RangeOf, OpenedOk, HoldsTrue, SeatedAs, CandidateOf, Party.CollectOk, Roster, OwnValid, T, Holds;
    var n := Start(cs, boxes, nonces);
    StartInv(cs, boxes, nonces);
    HonestBox(cs, boxes, nonces, s);
    PublishAccepted(n, cs, boxes, nonces, s);
    assert PartyInv(n.parties[s], cs, s, boxes[s]);
    m := n.parties[s].Published().value;
    NothingOpened(cs, boxes, nonces);
  }

  lemma NothingOpened(cs: seq<Candidate>, boxes: map<Word, OpenedBox>, nonces: map<Word, Word>)
    requires GoodSetup(cs, boxes, nonces)
    ensures var n := Start(cs, boxes, nonces); n.log == [] && n.collector.openedShare == map[]
  {
    hide Roster, OwnValid, CandidateOf, Enrolled, Member;
    HonestSafe(cs, boxes, nonces);
    CandidateValid(cs, 0);
    EnrolledIsMember(0, WITNESS_BOX, cs);
  }

  lemma {:induction false} LoneWeight(cs: seq<Candidate>, s: Word)
    requires DistinctIdents(cs)
    ensures SumOver(cs, {s}) == WeightOf(cs, s)
  {
    SumOverNone(cs);
    assert {} + {s} == {s};
    if RangeOf(cs, s).Some? { SumOverAdd(cs, {}, s); } else { SumOverUnlisted(cs, {}, s); }
  }

  /** The two steps: both are accepted and log the same message. */
  lemma TwiceLogged(cs: seq<Candidate>, boxes: map<Word, OpenedBox>, nonces: map<Word, Word>, s: Word)
    returns (n: Net, m: ShareMap)
    requires GoodSetup(cs, boxes, nonces) && s in boxes
    ensures NetInv(n, cs, boxes) && n.log == [Message(s, m)] && NoRepeats(cs, n.log)
    ensures var start := Start(cs, boxes, nonces);
            start.parties[s].Published() == Some(m) && n.collector == start.collector.Collected(s, m)
    ensures n.collector.CollectOk(s, m) && s in m
    ensures var last := TwiceRun(cs, boxes, nonces, s);
            last == Step(n, Publish(s)) && last.log == n.log + [Message(s, m)]
            && last.collector == n.collector.Collected(s, m)
  {
    hide GoodSetup, NetInv, Party.CollectOk, Party.Collected, Party.Published, NoRepeats, AllDistinct, Holds, Start;
    var start := Start(cs, boxes, nonces);
    m := FirstMessage(cs, boxes, nonces, s);
    n := Step(start, Publish(s));
    assert start.parties.Keys == boxes.Keys by { Parties(start, cs, boxes); }
    TwoSteps(start, Publish(s), Publish(s));
    FirstIsFresh(cs, Message(s, m));
    StepKeeps(start, cs, boxes, Publish(s));
    PublishAccepted(n, cs, boxes, nonces, s);
  }

  lemma Parties(n: Net, cs: seq<Candidate>, boxes: map<Word, OpenedBox>)
    requires NetInv(n, cs, boxes)
    ensures n.parties.Keys == boxes.Keys
  {
  }

  lemma FirstIsFresh(cs: seq<Candidate>, m: Message)
    ensures NoRepeats(cs, []) && [] + [m] == [m] && NoRepeats(cs, [m])
  {
    hide SumOver, T;
    NoRepeatsStep(cs, [], m);
  }

  /** An honest publication collected twice leaves the indices distinct if and only if its sender carries no
      weight, or enough to fill the lists alone. */
  lemma CollectedTwice(cs: seq<Candidate>, boxes: map<Word, OpenedBox>, nonces: map<Word, Word>, s: Word)
    requires GoodSetup(cs, boxes, nonces) && s in boxes
    ensures AllDistinct(TwiceRun(cs, boxes, nonces, s).collector) <==> WeightOf(cs, s) == 0 || WeightOf(cs, s) >= T(cs)
  {
    hide NetInv, Party.Collected, Party.Published, NoRepeats, AllDistinct, Start, T, Step, WeightOf, SumOver;
    hide CandidateOf, Sealed, LastIndex, Candidate.Verify, Contributors, Party.CollectEntryOk, RangeOf;
    var n, m := TwiceLogged(cs, boxes, nonces, s);
    var message := Message(s, m);
    StepKeeps(n, cs, boxes, Publish(s));
    NoRepeatsStep(cs, n.log, message);
    LoneWeight(cs, s);
    WitnessWeight(n, cs, boxes, nonces, s);
    forall d
      ensures Contributors(n.log, d) == if d in m then {s} else {}
    {
      OneContributor(message, d);
    }
    assert forall d :: d in m ==> |m[d]| == WeightOf(cs, s);
    assert EntryFresh(cs, n.log, message, s) ==> WeightOf(cs, s) == 0 || WeightOf(cs, s) >= T(cs);
  }

  lemma OneContributor(m: Message, d: Word)
    ensures Contributors([m], d) == if d in m.shares then {m.from} else {}
  {
    assert [] + [m] == [m];
    ContributorsStep([], m, d);
  }

  lemma WitnessWeight(n: Net, cs: seq<Candidate>, boxes: map<Word, OpenedBox>, nonces: map<Word, Word>, s: Word)
    requires GoodSetup(cs, boxes, nonces) && NetInv(n, cs, boxes) && s in boxes
    ensures n.collector.Range(s) == RangeOf(cs, s) && RangeOf(cs, s).Some? && RangeOf(cs, s).value.1 == WeightOf(cs, s)
  {
    hide GoodSetup, OpenedOk, Roster, CandidateOf, SeatedAs, RangeOf;
    HonestBox(cs, boxes, nonces, s);
    NonZero(cs, boxes, nonces, s);
    assert s in n.collector.participants;
    MemberRange(n.collector, cs, s);
  }

  // ----- the wrong secret

  /** Two equal shares interpolate to their own value: the zero entry of the inverse table hides the clash. */
  lemma EqualShares(s: Share)
    requires 1 <= s.x <= POW_TABLE_ROWS
    ensures InTable(Nodes([s, s])) && NewtonAtZero([s, s]) == Reduce(s.y)
  {
    hide Reduce;
    var pair := [s, s];
    InverseCorrect(0);
    assert DiffEntry(pair, 0, 0) == DiffEntry(pair, 1, 0) == Reduce(s.y);
    ReduceSmall(0);
    assert Sub(Reduce(s.y), Reduce(s.y)) == 0;
    assert DiffEntry(pair, 1, 1) == Mul(0, Inverse(0)) == 0;
    ReduceSmall(Reduce(s.y));
    assert NewtonValue(pair, 1) == Add(0, Mul(1, Reduce(s.y))) == Reduce(s.y);
    assert BasisValue(pair, 1) * 0 == 0;
  }

  /** The same entry of one share collected twice into an empty list. */
  lemma TwoShares(p: Party, s: Word, m: ShareMap, share: Share)
    requires p.thresh == 2 && p.Range(s) == Some((share.x, 1)) && p.openedShare == map[]
    requires s in m && m[s] == [share.y]
    ensures var q := p.Collected(s, m).Collected(s, m); s in q.openedShare && q.openedShare[s] == [share, share]
  {
    hide Extend;
    var once := p.Collected(s, m);
    ExtendContents([], 2, share.x, m[s]);
    assert once.openedShare[s] == [share];
    ExtendContents([share], 2, share.x, m[s]);
    var r := Extend([share], 2, share.x, m[s]);
    assert r[0] == r[..1][0] == share && r[1] == share;
  }

  /** With a threshold of two, a sender of weight one that is collected twice makes the witness recover the
      value of its polynomial at its own index in place of its secret. */
  lemma WrongSecret(cs: seq<Candidate>, boxes: map<Word, OpenedBox>, nonces: map<Word, Word>, s: Word)
    requires GoodSetup(cs, boxes, nonces) && s in boxes && WeightOf(cs, s) == 1 && T(cs) == 2
    ensures var w := TwiceRun(cs, boxes, nonces, s).collector;
            && boxes[s].Sufficient(2) && RangeOf(cs, s).Some? && w.InBounds() && s in w.Reconstructed()
            && w.Reconstructed()[s] == (boxes[s].At(2, RangeOf(cs, s).value.0), 1)
  {
    hide GoodSetup, NetInv, NoRepeats, AllDistinct, Start, T, Step, WeightOf, SumOver, RangeOf, NewtonAtZero;
    hide Party.CollectOk, OpenedBox.At, Reduce, Party.Published, Party.Collected, OpenedOk, Member;
    var start := Start(cs, boxes, nonces);
    var n, m := TwiceLogged(cs, boxes, nonces, s);
    var first := FirstMessage(cs, boxes, nonces, s);
    WitnessWeight(start, cs, boxes, nonces, s);
    WitnessOf(start, cs, boxes);
    WitnessOf(n, cs, boxes);
    MemberThresh(start.collector, cs);
    HonestBox(cs, boxes, nonces, s);
    var x, w := RangeOf(cs, s).value.0, TwiceRun(cs, boxes, nonces, s).collector;
    var share := Share(x, boxes[s].At(2, x));
    assert m[s] == [share.y];
    InvInBounds(n.collector, cs, n.log);
    CollectInBounds(n.collector, s, m);
    TwoShares(start.collector, s, m, share);
    SameSeat(start.collector, s, m);
    assert SharesInTable(w.openedShare[s]) && w.openedShare[s][0] == share;
    ReduceSmall(share.y);
    EqualShares(share);
  }

  lemma SameSeat(p: Party, s: Word, m: ShareMap)
    ensures var q := p.Collected(s, m).Collected(s, m); q.thresh == p.thresh && q.Range(s) == p.Range(s)
  {
    hide Opening;
  }

  // ----- three dealers

  const TRIO_BOX := OpenedBox([5, 3], 7)

  function TrioCandidate(d: Word): Candidate { Candidate(d, 1, Sealed(TRIO_BOX, d, 9)) }

  function Trio(): seq<Candidate> { [TrioCandidate(1), TrioCandidate(2), TrioCandidate(3)] }

  ghost function TrioBoxes(): map<Word, OpenedBox> { map[1 := TRIO_BOX, 2 := TRIO_BOX, 3 := TRIO_BOX] }

  ghost function TrioNonces(): map<Word, Word> { map[1 := 9, 2 := 9, 3 := 9] }

  lemma TrioVerifies(d: Word)
    ensures TrioCandidate(d).Verify() && |TrioCandidate(d).sBox.encryptedCoeff| == 2
  {
    hide SealedBox.VerifySignature;
    ReduceSmall(5);
    ReduceSmall(3);
    SealedVerifies(TRIO_BOX, d, 9);
  }

  lemma TrioSetup()
    ensures GoodSetup(Trio(), TrioBoxes(), TrioNonces())
    ensures WeightOf(Trio(), 1) == 1 && T(Trio()) == 2 && RangeOf(Trio(), 1) == Some((1, 1))
  {
    hide SealedBox.VerifySignature, Sealed, TrioCandidate;
    TrioVerifies(1);
    TrioVerifies(2);
    TrioVerifies(3);
    TrioShape(1);
    TrioShape(2);
    TrioShape(3);
    var a, b, c := TrioCandidate(1), TrioCandidate(2), TrioCandidate(3);
    var cs := Trio();
    assert cs[..2] == [a, b] && [a, b][..1] == [a] && [a][..0] == [];
    assert LastIndex([a]) == 2 && LastIndex([a, b]) == 3 && LastIndex(cs) == 4;
    assert CandidateOf([a], 1) == Some(a) && CandidateOf([a, b], 1) == Some(a) && CandidateOf([a, b], 2) == Some(b);
    assert RangeOf([a], 1) == Some((1, 1)) && RangeOf([a, b], 1) == Some((1, 1));
  }

  lemma TrioShape(d: Word)
    ensures TrioCandidate(d).ident == d && TrioCandidate(d).weight == 1
    ensures TrioCandidate(d).sBox == Sealed(TRIO_BOX, d, 9)
  {
  }

  /** Three honest dealers of weight one and secret five: the first one's publication, collected twice, makes the
      witness recover eight. */
  lemma EightForFive()
    ensures GoodSetup(Trio(), TrioBoxes(), TrioNonces())
    ensures var w := TwiceRun(Trio(), TrioBoxes(), TrioNonces(), 1).collector;
            && !AllDistinct(w) && w.InBounds() && 1 in w.Reconstructed() && w.Reconstructed()[1] == (8, 1)
    ensures TRIO_BOX.coeff[0] == 5
  {
    hide GoodSetup, Trio, TrioNonces, TwiceRun, AllDistinct, Party.InBounds, Party.Reconstructed, RangeOf, WeightOf, T;
    TrioSetup();
    CollectedTwice(Trio(), TrioBoxes(), TrioNonces(), 1);
    WrongSecret(Trio(), TrioBoxes(), TrioNonces(), 1);
    assert [5, 3][..2] == [5, 3] && [5, 3][1..] == [3] && [3][1..] == [];
    assert Eval([5, 3], 1) == 8;
    ReduceSmall(8);
  }
}

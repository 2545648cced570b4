/** Whole runs of the protocol: honest dealers and peers, a witness, and arbitrary other messages. */
module Protocol {
  import opened Words
  import opened Scalars
  import opened Polynomials
  import opened Curve
  import opened Boxes
  import opened SecretShare
  import opened Enrolment
  import opened Collection

  datatype Net = Net(parties: map<Word, Party>, collector: Party, log: seq<Message>)

  datatype Event =
    | Deliver(dealer: Word, to: Word)                       // an honest dealer's share reaches a peer
    | Forge(to: Word, from: Word, ciphers: seq<Word>)       // any other input to Accept
    | Publish(sender: Word)                                 // an honest publication reaches the witness
    | Inject(from: Word, shares: ShareMap)                  // any other input to Collect

  /** Every honest party is a candidate with its own sealed box, as Setup makes it. */
  ghost predicate GoodSetup(cs: seq<Candidate>, boxes: map<Word, OpenedBox>, nonces: map<Word, Word>) {
    && Roster(cs)
    && forall d :: d in boxes ==>
         && d in nonces && CandidateOf(cs, d).Some?
         && CandidateOf(cs, d).value.sBox == Sealed(boxes[d], d, nonces[d])
         && boxes[d].privKey != 0
         && forall i :: 0 <= i < |boxes[d].coeff| ==> boxes[d].coeff[i] < Q
  }

  ghost function Start(cs: seq<Candidate>, boxes: map<Word, OpenedBox>, nonces: map<Word, Word>): Net
    requires GoodSetup(cs, boxes, nonces)
  {
    HonestSafe(cs, boxes, nonces);
    Net(map d | d in boxes :: Enrolled(Fresh(d, boxes[d]), cs), Enrolled(Fresh(0, WITNESS_BOX), cs), [])
  }

  lemma CandidateValid(cs: seq<Candidate>, d: Word)
    requires Roster(cs) && (d == 0 || CandidateOf(cs, d).Some?)
    ensures OwnValid(d, cs)
  {
    if d != 0 {
      var c := CandidateOf(cs, d).value;
      var i :| 0 <= i < |cs| && cs[i] == c;
      forall j | 0 <= j < |cs| && cs[j].ident == d
        ensures cs[j].Verify()
      {
        assert i == j;
      }
    }
  }

  lemma HonestSafe(cs: seq<Candidate>, boxes: map<Word, OpenedBox>, nonces: map<Word, Word>)
    requires GoodSetup(cs, boxes, nonces)
    ensures forall d :: d in boxes ==> EnrollSafe(Fresh(d, boxes[d]), cs)
    ensures EnrollSafe(Fresh(0, WITNESS_BOX), cs)
  {
    hide EnrollSafe, Roster, OwnValid, CandidateOf;
    forall d | d in boxes
      ensures EnrollSafe(Fresh(d, boxes[d]), cs)
    {
      CandidateValid(cs, d);
      EnrollIsSafe(d, boxes[d], cs);
    }
    CandidateValid(cs, 0);
    EnrollIsSafe(0, WITNESS_BOX, cs);
  }

  // ----- steps

  function AcceptAt(n: Net, to: Word, from: Word, ciphers: seq<Word>): Net {
    if to in n.parties then n.(parties := n.parties[to := n.parties[to].Accepting(from, ciphers)]) else n
  }

  function CollectAt(n: Net, from: Word, m: ShareMap): Net {
    if n.collector.CollectOk(from, m)
    then n.(collector := n.collector.Collected(from, m), log := n.log + [Message(from, m)])
    else n
  }

  function Step(n: Net, e: Event): Net {
    match e
    case Deliver(dealer, to) =>
      if dealer in n.parties && to in n.parties[dealer].Distributed()
      then AcceptAt(n, to, dealer, n.parties[dealer].Distributed()[to])
      else n
    case Forge(to, from, ciphers) => AcceptAt(n, to, from, ciphers)
    case Publish(s) =>
      if s in n.parties && n.parties[s].Published().Some?
      then CollectAt(n, s, n.parties[s].Published().value)
      else n
    case Inject(from, m) => CollectAt(n, from, m)
  }

  function Run(n: Net, es: seq<Event>): Net {
    if es == [] then n else Step(Run(n, es[..|es|-1]), es[|es|-1])
  }

  // ----- what every step keeps

  /** A share held is a verified one for every index of the holder. */
  ghost predicate HoldsTrue(p: Party) {
    forall k :: k in p.participants && p.participants[k].shares != [] ==>
      |p.participants[k].shares| == p.weight && p.participants[k].VerifyShare(p.index, p.participants[k].shares)
  }

  ghost predicate PartyInv(p: Party, cs: seq<Candidate>, d: Word, box: OpenedBox) {
    Member(p, cs) && p.ident == d && p.box == box && HoldsTrue(p)
  }

  ghost predicate NetInv(n: Net, cs: seq<Candidate>, boxes: map<Word, OpenedBox>) {
    && n.parties.Keys == boxes.Keys
    && (forall d :: d in boxes ==> PartyInv(n.parties[d], cs, d, boxes[d]))
    && CollectInv(n.collector, cs, n.log) && n.collector.ident == 0 && n.collector.box == WITNESS_BOX
  }

  lemma AcceptKeeps(p: Party, cs: seq<Candidate>, d: Word, box: OpenedBox, from: Word, ciphers: seq<Word>)
    requires PartyInv(p, cs, d, box)
    ensures PartyInv(p.Accepting(from, ciphers), cs, d, box)
  {
    hide SealedBox.VerifySignature, SealedBox.Prepared, SealedBox.VerifyPolynomial, OpenedBox.SharedKey,
         RangeOf, LastIndex, CandidateOf, Roster, OwnValid, Participant.DecryptAll;
    var q := p.Accepting(from, ciphers);
    forall k | k in q.participants
      ensures SeatedAs(q.participants[k], cs, k, box)
      ensures q.participants[k].shares != [] ==>
                && |q.participants[k].shares| == q.weight
                && q.participants[k].VerifyShare(q.index, q.participants[k].shares)
    {
      assert SeatedAs(p.participants[k], cs, k, box);
      assert q.participants[k].(shares := []) == p.participants[k].(shares := []);
      if k == from && |ciphers| == p.weight {
        var values := p.participants[k].DecryptAll(ciphers);
        assert p.participants[k].VerifyShare(p.index, values) ==> q.participants[k].VerifyShare(p.index, values);
      }
    }
  }

  lemma StartInv(cs: seq<Candidate>, boxes: map<Word, OpenedBox>, nonces: map<Word, Word>)
    requires GoodSetup(cs, boxes, nonces)
    ensures NetInv(Start(cs, boxes, nonces), cs, boxes)
  {
    hide Roster, OwnValid, CandidateOf, Enrolled, Member, OpenedOk;
    HonestSafe(cs, boxes, nonces);
    var n := Start(cs, boxes, nonces);
    forall d | d in boxes
      ensures PartyInv(n.parties[d], cs, d, boxes[d])
    {
      CandidateValid(cs, d);
      EnrolledIsMember(d, boxes[d], cs);
    }
    CandidateValid(cs, 0);
    EnrolledIsMember(0, WITNESS_BOX, cs);
    forall d
      ensures OpenedOk(n.collector, cs, [], d)
    {
      OpenedNothing(n.collector, cs, d);
    }
  }

  lemma AcceptAtKeeps(n: Net, cs: seq<Candidate>, boxes: map<Word, OpenedBox>, to: Word, from: Word, ciphers: seq<Word>)
    requires NetInv(n, cs, boxes)
    ensures NetInv(AcceptAt(n, to, from, ciphers), cs, boxes)
  {
    hide PartyInv, CollectInv;
    if to in n.parties { AcceptKeeps(n.parties[to], cs, to, boxes[to], from, ciphers); }
  }

  lemma CollectAtKeeps(n: Net, cs: seq<Candidate>, boxes: map<Word, OpenedBox>, from: Word, m: ShareMap)
    requires NetInv(n, cs, boxes) && NoRepeats(cs, n.log)
    ensures AllDistinct(CollectAt(n, from, m).collector) <==> NoRepeats(cs, CollectAt(n, from, m).log)
    ensures NoRepeats(cs, CollectAt(n, from, m).log) ==> NetInv(CollectAt(n, from, m), cs, boxes)
  {
    hide PartyInv, CollectInv, Opening, NoRepeats, MessageFresh, AllDistinct;
    var message := Message(from, m);
    InvDistinct(n.collector, cs, n.log);
    if n.collector.CollectOk(from, m) {
      NoRepeatsStep(cs, n.log, message);
      StepDistinct(n.collector, cs, n.log, message);
      if MessageFresh(cs, n.log, message) { CollectStepInv(n.collector, cs, n.log, message); }
    }
  }

  lemma AcceptAtIdle(n: Net, cs: seq<Candidate>, boxes: map<Word, OpenedBox>, to: Word, from: Word, ciphers: seq<Word>)
    requires NetInv(n, cs, boxes)
    ensures AllDistinct(AcceptAt(n, to, from, ciphers).collector) && AcceptAt(n, to, from, ciphers).log == n.log
  {
    hide PartyInv, CollectInv, AllDistinct;
    InvDistinct(n.collector, cs, n.log);
  }

  lemma StepKeeps(n: Net, cs: seq<Candidate>, boxes: map<Word, OpenedBox>, e: Event)
    requires NetInv(n, cs, boxes) && NoRepeats(cs, n.log)
    ensures AllDistinct(Step(n, e).collector) <==> NoRepeats(cs, Step(n, e).log)
    ensures NoRepeats(cs, Step(n, e).log) ==> NetInv(Step(n, e), cs, boxes)
  {
    hide NetInv, AcceptAt, CollectAt, NoRepeats, AllDistinct;
    WitnessOf(n, cs, boxes);
    InvDistinct(n.collector, cs, n.log);
    match e
    case Deliver(dealer, to) =>
      if dealer in n.parties && to in n.parties[dealer].Distributed() {
        AcceptAtKeeps(n, cs, boxes, to, dealer, n.parties[dealer].Distributed()[to]);
        AcceptAtIdle(n, cs, boxes, to, dealer, n.parties[dealer].Distributed()[to]);
      }
    case Forge(to, from, ciphers) =>
      AcceptAtKeeps(n, cs, boxes, to, from, ciphers);
      AcceptAtIdle(n, cs, boxes, to, from, ciphers);
    case Publish(s) =>
      if s in n.parties && n.parties[s].Published().Some? {
        CollectAtKeeps(n, cs, boxes, s, n.parties[s].Published().value);
      }
    case Inject(from, m) => CollectAtKeeps(n, cs, boxes, from, m);
  }

  /** A repeated index is never undone. */
  lemma StepDistinctBefore(n: Net, e: Event)
    requires AllDistinct(Step(n, e).collector)
    ensures AllDistinct(n.collector)
  {
    hide AllDistinct, Party.Collected, Party.CollectOk, Party.Published, Party.Distributed;
    var now := Step(n, e);
    if e.Publish? && now.log != n.log {
      DistinctBefore(n.collector, Message(e.sender, n.parties[e.sender].Published().value));
    } else if e.Inject? && now.log != n.log {
      DistinctBefore(n.collector, Message(e.from, e.shares));
    }
  }

  lemma LogGrows(n: Net, e: Event)
    ensures n.log <= Step(n, e).log
  {
  }

  lemma {:induction false} RunLogGrows(n: Net, es: seq<Event>, i: nat)
    requires i <= |es|
    ensures Run(n, es[..i]).log <= Run(n, es).log
    decreases |es|
  {
    if i == |es| {
      assert es[..i] == es;
    } else {
      var before := es[..|es|-1];
      assert before[..i] == es[..i];
      RunLogGrows(n, before, i);
      LogGrows(Run(n, before), es[|es|-1]);
    }
  }

  lemma RunNoRepeats(n: Net, cs: seq<Candidate>, es: seq<Event>, i: nat)
    requires i <= |es| && NoRepeats(cs, Run(n, es).log)
    ensures NoRepeats(cs, Run(n, es[..i]).log) && NoRepeats(cs, n.log)
  {
    hide NoRepeats, Step;
    var log, sooner := Run(n, es).log, Run(n, es[..i]).log;
    RunLogGrows(n, es, i);
    RunLogGrows(n, es, 0);
    assert es[..0] == [] && log[..|sooner|] == sooner && log[..|n.log|] == n.log;
    NoRepeatsPrefix(cs, log, |sooner|);
    NoRepeatsPrefix(cs, log, |n.log|);
  }

  /** In every run the witness interpolates at distinct indices if and only if no logged message repeats, and then
      the invariant of all parties and of the witness holds. */
  lemma {:induction false} RunInv(n: Net, cs: seq<Candidate>, boxes: map<Word, OpenedBox>, es: seq<Event>)
    requires NetInv(n, cs, boxes) && NoRepeats(cs, n.log)
    ensures AllDistinct(Run(n, es).collector) <==> NoRepeats(cs, Run(n, es).log)
    ensures NoRepeats(cs, Run(n, es).log) ==> NetInv(Run(n, es), cs, boxes)
  {
    hide NetInv, Step, NoRepeats, AllDistinct;
    if es == [] {
      WitnessOf(n, cs, boxes);
      InvDistinct(n.collector, cs, n.log);
    } else {
      var before := es[..|es|-1];
      RunInv(n, cs, boxes, before);
      if NoRepeats(cs, Run(n, before).log) {
        StepKeeps(Run(n, before), cs, boxes, es[|es|-1]);
      } else {
        if NoRepeats(cs, Run(n, es).log) { RunNoRepeats(n, cs, es, |es| - 1); }
        if AllDistinct(Run(n, es).collector) { StepDistinctBefore(Run(n, before), es[|es|-1]); }
      }
    }
  }

  // ----- honest messages are accepted

  lemma HonestBox(cs: seq<Candidate>, boxes: map<Word, OpenedBox>, nonces: map<Word, Word>, d: Word)
    requires GoodSetup(cs, boxes, nonces) && d in boxes
    ensures boxes[d].Sufficient(T(cs)) && T(cs) >= 1
    ensures RangeOf(cs, d).Some?
  {
    hide SealedBox.VerifySignature, RangeOf, LastIndex, CandidateOf, Roster;
    RangeIsCandidate(cs, d);
    RosterBoxes(cs, d);
    ThresholdMajority(cs);
  }

  /** The value an honest dealer computes for an index passes the check against its commitments. */
  lemma HonestValue(cs: seq<Candidate>, boxes: map<Word, OpenedBox>, nonces: map<Word, Word>, d: Word, x: nat)
    requires GoodSetup(cs, boxes, nonces) && d in boxes && 1 <= x < LastIndex(cs)
    ensures boxes[d].Sufficient(T(cs))
    ensures T(cs) <= |CandidateOf(cs, d).value.sBox.encryptedCoeff| && CandidateOf(cs, d).value.sBox.Unpacks()
    ensures CandidateOf(cs, d).value.sBox.Prepared(T(cs), LastIndex(cs)).VerifyPolynomial(x, boxes[d].At(T(cs), x))
  {
    hide Cong, Eval, Reduce, SealedBox.VerifySignature, RangeOf, LastIndex, CandidateOf, Roster, SealedBox.Prepared,
         Sealed,
         SealedBox.Committed;
    HonestBox(cs, boxes, nonces, d);
    RosterBoxes(cs, d);
    var box, t := boxes[d], T(cs);
    SealedCommits(box, d, nonces[d], t, x);
    var c, g := Eval(Sealed(box, d, nonces[d]).Committed(t), x), Eval(box.coeff[..t], x);
    CongSym(c, g);
    CongTrans(Reduce(g), g, c);
    CommitmentBinds(CandidateOf(cs, d).value.sBox, t, LastIndex(cs), x, Reduce(g));
  }

  /** Dealer and peer hold the same shared key. */
  lemma KeysAgree(cs: seq<Candidate>, boxes: map<Word, OpenedBox>, nonces: map<Word, Word>, d: Word, e: Word)
    requires GoodSetup(cs, boxes, nonces) && d in boxes && e in boxes
    ensures boxes[d].SharedKey(CandidateOf(cs, e).value.sBox.pubKey)
            == boxes[e].SharedKey(CandidateOf(cs, d).value.sBox.pubKey)
  {
    hide CandidateOf, Roster;
    SharedKeyAgrees(boxes[d].privKey, boxes[e].privKey);
  }

  ghost predicate Holds(n: Net, s: Word, d: Word) {
    s in n.parties && (s == d || (d in n.parties[s].participants && n.parties[s].participants[d].shares != []))
  }

  /** How dealer d and peer s see each other. */
  lemma PairSeats(n: Net, cs: seq<Candidate>, boxes: map<Word, OpenedBox>, nonces: map<Word, Word>, d: Word, s: Word)
    requires GoodSetup(cs, boxes, nonces) && NetInv(n, cs, boxes) && d in boxes && s in boxes && d != s
    ensures var dealer, peer := n.parties[d], n.parties[s];
            && dealer.box == boxes[d] && dealer.thresh == T(cs)
            && s in dealer.participants && d in peer.participants
            && dealer.participants[s].sharedKey == peer.participants[d].sharedKey
            && (dealer.participants[s].index, dealer.participants[s].weight) == (peer.index, peer.weight)
            && 1 <= peer.index && peer.index + peer.weight <= LastIndex(cs)
            && T(cs) <= |CandidateOf(cs, d).value.sBox.encryptedCoeff| && CandidateOf(cs, d).value.sBox.Unpacks()
            && peer.participants[d].sBox == CandidateOf(cs, d).value.sBox.Prepared(T(cs), LastIndex(cs))
  {
    hide SealedBox.VerifySignature, SealedBox.Prepared, SealedBox.Unpacks, OpenedBox.SharedKey, RangeOf, LastIndex,
         CandidateOf, Roster,
         HoldsTrue, CollectInv, OwnValid;
    assert PartyInv(n.parties[d], cs, d, boxes[d]) && PartyInv(n.parties[s], cs, s, boxes[s]);
    var dealer, peer := n.parties[d], n.parties[s];
    HonestBox(cs, boxes, nonces, d);
    HonestBox(cs, boxes, nonces, s);
    assert SeatedAs(dealer.participants[s], cs, s, boxes[d]) && SeatedAs(peer.participants[d], cs, d, boxes[s]);
    KeysAgree(cs, boxes, nonces, d, s);
    RosterBoxes(cs, d);
    RangeBelowLast(cs, s);
  }

  /** In every reachable state a peer accepts an honest dealer's distributed share. */
  lemma DeliverAccepted(n: Net, cs: seq<Candidate>, boxes: map<Word, OpenedBox>, nonces: map<Word, Word>, d: Word,
                        s: Word)
    requires GoodSetup(cs, boxes, nonces) && NetInv(n, cs, boxes) && d in boxes && s in boxes && d != s
    ensures s in n.parties[d].Distributed()
    ensures n.parties[s].AcceptOk(d, n.parties[d].Distributed()[s])
    ensures |n.parties[d].Distributed()[s]| == n.parties[s].weight
  {
    hide SealedBox.VerifyPolynomial, SealedBox.Prepared, SealedBox.Unpacks, OpenedBox.At, LastIndex, CandidateOf, Xor,
         GoodSetup, PartyInv, CollectInv, T;
    PairSeats(n, cs, boxes, nonces, d, s);
    HonestBox(cs, boxes, nonces, d);
    var dealer, peer := n.parties[d], n.parties[s];
    var there, here := dealer.participants[s], peer.participants[d];
    var ciphers := dealer.Distributed()[s];
    var values := here.DecryptAll(ciphers);
    forall i | 0 <= i < |values|
      ensures here.sBox.VerifyPolynomial(peer.index + i, values[i])
    {
      var v := boxes[d].At(T(cs), peer.index + i);
      assert ciphers[i] == there.Encrypt(v);
      XorCancel(here.sharedKey, v);
      HonestValue(cs, boxes, nonces, d, peer.index + i);
    }
  }

  /** What an honest dealer sends to an honest peer is its polynomial at the peer's index under the exclusive or
      with the packed point at the product of their two private keys. */
  lemma DealtShare(n: Net, cs: seq<Candidate>, boxes: map<Word, OpenedBox>, nonces: map<Word, Word>, d: Word, s: Word,
                   i: nat, c: Word)
    requires GoodSetup(cs, boxes, nonces) && NetInv(n, cs, boxes) && d in boxes && s in boxes && d != s
    requires i < n.parties[s].weight && Cong(c, boxes[d].privKey * boxes[s].privKey)
    ensures var dealt := n.parties[d].Distributed();
            && s in dealt && |dealt[s]| == n.parties[s].weight && T(cs) <= |boxes[d].coeff|
            && dealt[s][i] == Xor(EccPubkey(c), Reduce(Eval(boxes[d].coeff[..T(cs)], n.parties[s].index + i)))
  {
    hide Cong, Eval, Reduce, Xor, EccSharedKey, EccPubkey, SealedBox.Prepared, SealedBox.Unpacks, LastIndex,
         CandidateOf;
    hide T, CollectInv, GoodSetup, Party.Distributed, Member, HoldsTrue;
    PairSeats(n, cs, boxes, nonces, d, s);
    HonestBox(cs, boxes, nonces, d);
    assert PartyInv(n.parties[d], cs, d, boxes[d]);
    PeerKey(n.parties[d], cs, s);
    HonestKey(cs, boxes, nonces, s);
    SharedKeyIs(boxes[d].privKey, boxes[s].privKey, c);
    DistributedAt(n.parties[d], s);
    assert boxes[d].At(T(cs), n.parties[s].index + i)
           == Reduce(Eval(boxes[d].coeff[..T(cs)], n.parties[s].index + i));
  }

  lemma HonestKey(cs: seq<Candidate>, boxes: map<Word, OpenedBox>, nonces: map<Word, Word>, s: Word)
    requires GoodSetup(cs, boxes, nonces) && s in boxes
    ensures CandidateOf(cs, s).Some? && CandidateOf(cs, s).value.sBox.pubKey == EccPubkey(boxes[s].privKey)
  {
    hide CandidateOf, Roster, EccPubkey;
  }

  lemma PeerKey(p: Party, cs: seq<Candidate>, s: Word)
    requires Member(p, cs) && s in p.participants
    ensures CandidateOf(cs, s).Some?
    ensures p.participants[s].sharedKey == EccSharedKey(p.box.privKey, CandidateOf(cs, s).value.sBox.pubKey)
  {
    hide SealedBox.Prepared, EccSharedKey, LastIndex, CandidateOf, RangeOf, Roster, OwnValid, T;
    assert SeatedAs(p.participants[s], cs, s, p.box);
  }

  lemma DeliverHolds(n: Net, cs: seq<Candidate>, boxes: map<Word, OpenedBox>, nonces: map<Word, Word>, d: Word, s: Word)
    requires GoodSetup(cs, boxes, nonces) && NetInv(n, cs, boxes) && d in boxes && s in boxes && d != s
    requires n.parties[s].weight > 0
    ensures Holds(Step(n, Deliver(d, s)), s, d)
  {
    hide GoodSetup, PartyInv, CollectInv, Participant.VerifyShare, Participant.DecryptAll, Party.SharesFor;
    DeliverAccepted(n, cs, boxes, nonces, d, s);
  }

  /** A publication has an entry for every dealer whose share the party holds, and no other. */
  lemma PublishedKeys(n: Net, cs: seq<Candidate>, boxes: map<Word, OpenedBox>, nonces: map<Word, Word>, s: Word)
    requires GoodSetup(cs, boxes, nonces) && NetInv(n, cs, boxes) && s in boxes
    ensures n.parties[s].Published().Some?
    ensures forall d :: d in n.parties[s].Published().value <==> Holds(n, s, d)
  {
    hide Eval, Reduce, SealedBox.VerifySignature, SealedBox.VerifyPolynomial, SealedBox.Prepared, OpenedBox.SharedKey,
         RangeOf, LastIndex, CandidateOf, OpenedOk, GoodSetup, CollectInv;
    assert PartyInv(n.parties[s], cs, s, boxes[s]);
    HonestBox(cs, boxes, nonces, s);
    assert n.parties[s].weight > 0 ==> n.parties[s].box.Sufficient(n.parties[s].thresh);
  }

  lemma NonZero(cs: seq<Candidate>, boxes: map<Word, OpenedBox>, nonces: map<Word, Word>, s: Word)
    requires GoodSetup(cs, boxes, nonces) && s in boxes
    ensures s != 0
  {
    hide SealedBox.VerifySignature, LastIndex, DistinctIdents, Sealed;
    var i :| 0 <= i < |cs| && cs[i] == CandidateOf(cs, s).value;
  }

  /** In every reachable state the witness accepts an honest party's publication, which has an entry
      for every dealer whose share that party holds. */
  lemma PublishAccepted(n: Net, cs: seq<Candidate>, boxes: map<Word, OpenedBox>, nonces: map<Word, Word>, s: Word)
    requires GoodSetup(cs, boxes, nonces) && NetInv(n, cs, boxes) && s in boxes
    ensures n.parties[s].Published().Some?
    ensures n.collector.CollectOk(s, n.parties[s].Published().value)
    ensures forall d :: d in n.parties[s].Published().value <==> Holds(n, s, d)
  {
    hide Eval, Reduce, SealedBox.VerifySignature, SealedBox.VerifyPolynomial, SealedBox.Prepared, OpenedBox.SharedKey,
         RangeOf, LastIndex, CandidateOf, OpenedOk, GoodSetup, Party.Published, Party.CollectEntryOk, Holds;
    PublishedKeys(n, cs, boxes, nonces, s);
    assert PartyInv(n.parties[s], cs, s, boxes[s]);
    var p, w := n.parties[s], n.collector;
    NonZero(cs, boxes, nonces, s);
    HonestBox(cs, boxes, nonces, s);
    MemberRange(p, cs, s);
    MemberRange(w, cs, s);
    var m := p.Published().value;
    forall d | d in m
      ensures |m[d]| == p.weight && w.CollectEntryOk(p.index, d, m[d])
    {
      PublishedEntry(p, w, cs, boxes, nonces, s, d);
    }
  }

  lemma PublishedEntry(p: Party, w: Party, cs: seq<Candidate>, boxes: map<Word, OpenedBox>, nonces: map<Word, Word>,
                       s: Word, d: Word)
    requires GoodSetup(cs, boxes, nonces) && s in boxes && PartyInv(p, cs, s, boxes[s])
    requires Member(w, cs) && w.ident == 0
    requires p.Published().Some? && d in p.Published().value
    requires w.Range(s) == p.Range(s)
    requires p.Range(s) == RangeOf(cs, s)
    ensures |p.Published().value[d]| == p.weight && w.CollectEntryOk(p.index, d, p.Published().value[d])
  {
    hide Eval, Reduce, SealedBox.VerifySignature, SealedBox.VerifyPolynomial, SealedBox.Prepared, OpenedBox.SharedKey,
         RangeOf, LastIndex, CandidateOf;
    var m := p.Published().value;
    HonestBox(cs, boxes, nonces, s);
    RangeBelowLast(cs, s);
    assert RangeOf(cs, d).Some? && d != 0 by {
      var i :| 0 <= i < |cs| && cs[i] == CandidateOf(cs, d).value;
    }
    assert SeatedAs(w.participants[d], cs, d, w.box);
    if d == s {
      forall i | 0 <= i < p.weight
        ensures w.participants[d].sBox.VerifyPolynomial(p.index + i, m[d][i])
      {
        HonestValue(cs, boxes, nonces, s, p.index + i);
      }
    } else {
      assert SeatedAs(p.participants[d], cs, d, p.box);
      assert w.participants[d].sBox == p.participants[d].sBox;
    }
  }

  // ----- the end-to-end theorem

  /** The event replaces what s holds from d by something d did not send. */
  predicate Disturbs(e: Event, s: Word, d: Word) { e.Forge? && e.to == s && e.from == d }

  /** Between events i and j of the run, s received d's share, kept it, and published. */
  ghost predicate ServedAt(es: seq<Event>, s: Word, d: Word, i: nat, j: nat) {
    && i < j < |es| && es[j] == Publish(s)
    && (s == d || es[i] == Deliver(d, s))
    && forall k :: i < k < j ==> !Disturbs(es[k], s, d)
  }

  ghost predicate Served(es: seq<Event>, s: Word, d: Word) { exists i: nat, j: nat :: ServedAt(es, s, d, i, j) }

  lemma StepHolds(n: Net, cs: seq<Candidate>, boxes: map<Word, OpenedBox>, nonces: map<Word, Word>, e: Event, s: Word,
                  d: Word)
    requires GoodSetup(cs, boxes, nonces) && NetInv(n, cs, boxes) && d in boxes && s in boxes
    requires n.parties[s].weight > 0 && Holds(n, s, d) && !Disturbs(e, s, d)
    ensures Holds(Step(n, e), s, d)
  {
    hide NetInv, GoodSetup;
    if e == Deliver(d, s) && d != s { DeliverHolds(n, cs, boxes, nonces, d, s); }
  }

  lemma {:induction false} RunHolds(n: Net, cs: seq<Candidate>, boxes: map<Word, OpenedBox>, nonces: map<Word, Word>,
                                    es: seq<Event>, s: Word, d: Word, i: nat, j: nat)
    requires GoodSetup(cs, boxes, nonces) && NetInv(n, cs, boxes) && d in boxes && s in boxes
    requires WeightOf(cs, s) > 0 && NoRepeats(cs, Run(n, es).log)
    requires i < j <= |es| && (s == d || es[i] == Deliver(d, s))
    requires forall k :: i < k < j ==> !Disturbs(es[k], s, d)
    ensures Holds(Run(n, es[..j]), s, d)
    decreases j
  {
    hide Member, HoldsTrue, CollectInv, GoodSetup, Step, RangeOf, NoRepeats;
    var before := Run(n, es[..j-1]);
    RunNoRepeats(n, cs, es, j - 1);
    RunInv(n, cs, boxes, es[..j-1]);
    assert es[..j][..j-1] == es[..j-1];
    WeightKept(before, cs, boxes, s);
    if s == d {
      RunNoRepeats(n, cs, es, j);
      RunInv(n, cs, boxes, es[..j]);
    } else if i == j - 1 {
      DeliverHolds(before, cs, boxes, nonces, d, s);
    } else {
      RunHolds(n, cs, boxes, nonces, es, s, d, i, j - 1);
      StepHolds(before, cs, boxes, nonces, es[j-1], s, d);
    }
  }

  function WeightOf(cs: seq<Candidate>, s: Word): nat { if RangeOf(cs, s).Some? then RangeOf(cs, s).value.1 else 0 }

  lemma WeightKept(n: Net, cs: seq<Candidate>, boxes: map<Word, OpenedBox>, s: Word)
    requires NetInv(n, cs, boxes) && s in boxes
    ensures n.parties[s].weight == WeightOf(cs, s)
  {
    hide RangeOf, CollectInv, HoldsTrue, Roster, OwnValid;
    assert PartyInv(n.parties[s], cs, s, boxes[s]);
  }

  lemma PublishLogged(n: Net, cs: seq<Candidate>, boxes: map<Word, OpenedBox>, nonces: map<Word, Word>, s: Word,
                      d: Word)
    returns (m: ShareMap)
    requires GoodSetup(cs, boxes, nonces) && NetInv(n, cs, boxes) && s in boxes && Holds(n, s, d)
    ensures d in m && Step(n, Publish(s)).log == n.log + [Message(s, m)]
  {
    hide GoodSetup, NetInv, Party.CollectOk, Party.Collected, Party.Published;
    PublishAccepted(n, cs, boxes, nonces, s);
    m := n.parties[s].Published().value;
  }

  /** A served sender contributes to the dealer in the final log. */
  lemma ServedContributes(n: Net, cs: seq<Candidate>, boxes: map<Word, OpenedBox>, nonces: map<Word, Word>,
                          es: seq<Event>, s: Word, d: Word)
    requires GoodSetup(cs, boxes, nonces) && NetInv(n, cs, boxes) && d in boxes && s in boxes
    requires WeightOf(cs, s) > 0 && NoRepeats(cs, Run(n, es).log) && Served(es, s, d)
    ensures s in Contributors(Run(n, es).log, d)
  {
    hide NetInv, GoodSetup, Holds, Step, WeightOf, NoRepeats;
    var i: nat, j: nat :| ServedAt(es, s, d, i, j);
    RunHolds(n, cs, boxes, nonces, es, s, d, i, j);
    var before, log := Run(n, es[..j]), Run(n, es).log;
    RunLogGrows(n, es, j);
    RunNoRepeats(n, cs, es, j);
    RunInv(n, cs, boxes, es[..j]);
    var m := PublishLogged(before, cs, boxes, nonces, s, d);
    assert es[..j+1][..j] == es[..j];
    RunLogGrows(n, es, j + 1);
    assert log[|before.log|] == Message(s, m);
  }

  /** In every run, whatever is delivered or injected, the witness recovers exactly the candidates to
      which senders of threshold weight contributed, each with the constant term it committed to; for
      an honest dealer that is its own secret. */
  lemma RunReconstructs(cs: seq<Candidate>, boxes: map<Word, OpenedBox>, nonces: map<Word, Word>, es: seq<Event>,
                        d: Word)
    requires GoodSetup(cs, boxes, nonces)
    requires NoRepeats(cs, Run(Start(cs, boxes, nonces), es).log)
    ensures var n := Run(Start(cs, boxes, nonces), es);
            var w := n.collector;
            && w.InBounds()
            && (d in w.Reconstructed() <==> WeightOf(cs, d) > 0 && SumOver(cs, Contributors(n.log, d)) >= T(cs))
            && (d in w.Reconstructed() ==>
                  && Committing(cs, d)
                  && w.Reconstructed()[d] == (CommittedSecret(cs, d), WeightOf(cs, d)))
            && (d in boxes && d in w.Reconstructed() ==>
                  boxes[d].coeff != [] && w.Reconstructed()[d].0 == boxes[d].coeff[0])
  {
    hide NetInv, GoodSetup, Run, Contributors, SumOver, Party.Reconstructed, RangeOf, PolyOf, Member, OpenedOk,
         CommittedSecret,
         Committing;
    var n0 := Start(cs, boxes, nonces);
    StartInv(cs, boxes, nonces);
    var n := Run(n0, es);
    RunNoRepeats(n0, cs, es, 0);
    RunInv(n0, cs, boxes, es);
    WitnessOf(n, cs, boxes);
    ReconstructExact(n.collector, cs, n.log, d);
    WitnessRange(n.collector, cs, d);
    if d in n.collector.Reconstructed() {
      WitnessSecret(n.collector, cs, d);
      if d in boxes { HonestSecret(cs, boxes, nonces, d); }
    }
  }

  /** A dealer whose shares reached honest senders of threshold weight that then published is
      recovered with its own secret, whatever else happens in the run. */
  lemma EndToEnd(cs: seq<Candidate>, boxes: map<Word, OpenedBox>, nonces: map<Word, Word>, es: seq<Event>, d: Word,
                 senders: set<Word>)
    requires GoodSetup(cs, boxes, nonces)
    requires NoRepeats(cs, Run(Start(cs, boxes, nonces), es).log)
    requires d in boxes && WeightOf(cs, d) > 0 && SumOver(cs, senders) >= T(cs)
    requires forall s :: s in senders ==> s in boxes && WeightOf(cs, s) > 0 && Served(es, s, d)
    ensures var w := Run(Start(cs, boxes, nonces), es).collector;
            && boxes[d].coeff != [] && w.InBounds()
            && d in w.Reconstructed() && w.Reconstructed()[d] == (boxes[d].coeff[0], WeightOf(cs, d))
  {
    hide NetInv, GoodSetup, Run, Contributors, SumOver, Party.Reconstructed, WeightOf, Served, CommittedSecret,
         Committing, Start;
    var n0 := Start(cs, boxes, nonces);
    StartInv(cs, boxes, nonces);
    var n := Run(n0, es);
    forall s | s in senders
      ensures s in Contributors(n.log, d)
    {
      ServedContributes(n0, cs, boxes, nonces, es, s, d);
    }
    SumOverMonotone(cs, senders, Contributors(n.log, d));
    RunReconstructs(cs, boxes, nonces, es, d);
  }

  /** The candidate has commitments that unpack, enough for the threshold. */
  ghost predicate Committing(cs: seq<Candidate>, d: Word) {
    && CandidateOf(cs, d).Some? && CandidateOf(cs, d).value.sBox.Unpacks()
    && 1 <= T(cs) <= |CandidateOf(cs, d).value.sBox.encryptedCoeff|
  }

  /** The constant term a candidate's box commits to. */
  ghost function CommittedSecret(cs: seq<Candidate>, d: Word): Scalar
    requires Committing(cs, d)
  {
    CandidateOf(cs, d).value.sBox.Committed(T(cs))[0]
  }

  lemma WitnessOf(n: Net, cs: seq<Candidate>, boxes: map<Word, OpenedBox>)
    requires NetInv(n, cs, boxes)
    ensures CollectInv(n.collector, cs, n.log) && Member(n.collector, cs) && n.collector.ident == 0
  {
  }

  lemma WitnessRange(w: Party, cs: seq<Candidate>, d: Word)
    requires Member(w, cs) && w.ident == 0
    ensures w.Range(d).Some? && w.Range(d).value.1 > 0 <==> WeightOf(cs, d) > 0
    ensures WeightOf(cs, d) > 0 ==> d != 0 && w.Range(d).value.1 == WeightOf(cs, d)
  {
    hide SealedBox.VerifySignature, SealedBox.Prepared, OpenedBox.SharedKey, LastIndex, RangeOf, CandidateOf;
    assert RangeOf(cs, 0).None? by { NotListed(cs, 0); }
    if w.Range(d).Some? { MemberRange(w, cs, d); }
  }

  lemma WitnessSecret(w: Party, cs: seq<Candidate>, d: Word)
    requires Member(w, cs) && d != w.ident && w.Range(d).Some?
    ensures Committing(cs, d) && PolyOf(w, cs, d) != [] && Reduce(PolyOf(w, cs, d)[0]) == CommittedSecret(cs, d)
  {
    hide SealedBox.VerifySignature, SealedBox.Prepared, OpenedBox.SharedKey, LastIndex, RangeOf, CandidateOf, Reduce;
    RosterBoxes(cs, d);
    ThresholdMajority(cs);
    ReduceSmall(CommittedSecret(cs, d));
  }

  lemma HonestSecret(cs: seq<Candidate>, boxes: map<Word, OpenedBox>, nonces: map<Word, Word>, d: Word)
    requires GoodSetup(cs, boxes, nonces) && d in boxes
    ensures boxes[d].coeff != [] && Committing(cs, d) && CommittedSecret(cs, d) == boxes[d].coeff[0]
  {
    hide SealedBox.VerifySignature, SealedBox.Prepared, OpenedBox.SharedKey, LastIndex, RangeOf, CandidateOf, Roster,
         Reduce;
    HonestBox(cs, boxes, nonces, d);
    RosterBoxes(cs, d);
    var c := boxes[d].coeff[0];
    ReduceSmall(c);
    assert Unpack(EccPubkey(c)) == Some(Generate(c));
  }
}

/** The undisturbed run: everybody deals to everybody, then everybody publishes. */
module HonestRun {
  import opened Words
  import opened Scalars
  import opened Boxes
  import opened SecretShare
  import opened Enrolment
  import opened Collection
  import opened Protocol

  // ----- the schedule

  function DeliverTo(ps: seq<Word>, s: Word): seq<Event> {
    seq(|ps|, i requires 0 <= i < |ps| => Deliver(ps[i], s))
  }

  function Deliveries(ps: seq<Word>, n: nat): seq<Event>
    requires n <= |ps|
  {
    if n == 0 then [] else Deliveries(ps, n - 1) + DeliverTo(ps, ps[n-1])
  }

  function Publications(ps: seq<Word>): seq<Event> {
    seq(|ps|, i requires 0 <= i < |ps| => Publish(ps[i]))
  }

  function Schedule(ps: seq<Word>): seq<Event> { Deliveries(ps, |ps|) + Publications(ps) }

  lemma {:induction false} DeliveryAt(ps: seq<Word>, n: nat, a: nat, b: nat) returns (i: nat)
    requires a < |ps| && b < n <= |ps|
    ensures i < |Deliveries(ps, n)| && Deliveries(ps, n)[i] == Deliver(ps[a], ps[b])
  {
    if b == n - 1 {
      i := |Deliveries(ps, n - 1)| + a;
    } else {
      i := DeliveryAt(ps, n - 1, a, b);
    }
  }

  lemma {:induction false} OnlyDeliveries(ps: seq<Word>, n: nat)
    requires n <= |ps|
    ensures forall i :: 0 <= i < |Deliveries(ps, n)| ==> Deliveries(ps, n)[i].Deliver?
  {
    if n > 0 { OnlyDeliveries(ps, n - 1); }
  }

  /** Everybody is served by everybody. */
  lemma AllServed(ps: seq<Word>, a: nat, b: nat)
    requires a < |ps| && b < |ps|
    ensures Served(Schedule(ps), ps[b], ps[a])
  {
    var es, m := Schedule(ps), |Deliveries(ps, |ps|)|;
    var i := DeliveryAt(ps, |ps|, a, b);
    OnlyDeliveries(ps, |ps|);
    assert es[i] == Deliver(ps[a], ps[b]) && es[m+b] == Publish(ps[b]);
    assert ServedAt(es, ps[b], ps[a], i, m + b);
  }

  // ----- nobody is collected twice

  ghost predicate DistinctWords(ps: seq<Word>) { forall i, j :: 0 <= i < j < |ps| ==> ps[i] != ps[j] }

  lemma {:induction false} NothingLogged(n: Net, ps: seq<Word>, k: nat)
    requires k <= |Deliveries(ps, |ps|)|
    ensures Run(n, Deliveries(ps, |ps|)[..k]).log == n.log
  {
    hide Party.Distributed;
    if k > 0 {
      var es := Deliveries(ps, |ps|);
      NothingLogged(n, ps, k - 1);
      OnlyDeliveries(ps, |ps|);
      assert es[..k][..k-1] == es[..k-1];
    }
  }

  /** After the first k publications the log holds messages of distinct ones of the first k senders. */
  ghost predicate LogOfFirst(log: seq<Message>, ps: seq<Word>, k: nat)
    requires k <= |ps|
  {
    && (forall i, j :: 0 <= i < j < |log| ==> log[i].from != log[j].from)
    && forall i :: 0 <= i < |log| ==> log[i].from in ps[..k]
  }

  lemma {:induction false} LogGrowsOnce(n: Net, ps: seq<Word>, k: nat)
    requires k <= |ps| && DistinctWords(ps) && n.log == []
    ensures LogOfFirst(Run(n, Deliveries(ps, |ps|) + Publications(ps)[..k]).log, ps, k)
  {
    hide Party.Published, Party.CollectOk, Party.Collected;
    var ds := Deliveries(ps, |ps|);
    if k == 0 {
      assert ds + Publications(ps)[..0] == ds && ds[..|ds|] == ds;
      NothingLogged(n, ps, |ds|);
    } else {
      var es := ds + Publications(ps)[..k];
      LogGrowsOnce(n, ps, k - 1);
      assert es[..|es|-1] == ds + Publications(ps)[..k-1] && es[|es|-1] == Publish(ps[k-1]);
      OneMore(Run(n, es[..|es|-1]), ps, k);
    }
  }

  lemma OneMore(n: Net, ps: seq<Word>, k: nat)
    requires 0 < k <= |ps| && DistinctWords(ps) && LogOfFirst(n.log, ps, k - 1)
    ensures LogOfFirst(Step(n, Publish(ps[k-1])).log, ps, k)
  {
    hide Party.Published, Party.CollectOk, Party.Collected;
    assert ps[..k] == ps[..k-1] + [ps[k-1]];
    assert ps[k-1] !in ps[..k-1];
  }

  // ----- the senders carry the whole weight

  /** All weighted candidates whose box verifies. */
  ghost predicate Everyone(cs: seq<Candidate>, a: set<Word>) {
    forall i :: 0 <= i < |cs| && cs[i].Verify() && cs[i].weight > 0 ==> cs[i].ident in a
  }

  lemma {:induction false} WholeWeight(cs: seq<Candidate>, a: set<Word>)
    requires Everyone(cs, a)
    ensures SumOver(cs, a) == LastIndex(cs) - 1
  {
    hide SealedBox.VerifySignature;
    if cs != [] { WholeWeight(cs[..|cs|-1], a); }
  }

  lemma {:induction false} WeightBelow(cs: seq<Candidate>, d: Word)
    ensures WeightOf(cs, d) < LastIndex(cs)
  {
    hide SealedBox.VerifySignature;
    if cs != [] { WeightBelow(cs[..|cs|-1], d); }
  }

  /** When all enrolled delegates are honest, deal to each other and publish, the witness recovers every one's
      secret with its weight. */
  lemma EverySecretRecovered(cs: seq<Candidate>, boxes: map<Word, OpenedBox>, nonces: map<Word, Word>, ps: seq<Word>,
                             a: nat)
    requires GoodSetup(cs, boxes, nonces) && DistinctWords(ps) && a < |ps|
    requires forall i :: 0 <= i < |ps| ==> ps[i] in boxes && WeightOf(cs, ps[i]) > 0
    requires Everyone(cs, set i | 0 <= i < |ps| :: ps[i])
    ensures var w := Run(Start(cs, boxes, nonces), Schedule(ps)).collector;
            && boxes[ps[a]].coeff != [] && w.InBounds()
            && ps[a] in w.Reconstructed() && w.Reconstructed()[ps[a]] == (boxes[ps[a]].coeff[0], WeightOf(cs, ps[a]))
  {
    hide GoodSetup, Run, SumOver, WeightOf, LastIndex, Served, Party.Reconstructed, Party.InBounds, Deliveries,
         Publications;
    var n0, senders := Start(cs, boxes, nonces), set i | 0 <= i < |ps| :: ps[i];
    NothingYet(cs, boxes, nonces);
    LogGrowsOnce(n0, ps, |ps|);
    PublishAll(ps);
    OnceEach(cs, Run(n0, Schedule(ps)).log);
    WholeWeight(cs, senders);
    WeightBelow(cs, ps[a]);
    ThresholdMajority(cs);
    forall s | s in senders ensures s in boxes && WeightOf(cs, s) > 0 && Served(Schedule(ps), s, ps[a]) {
      var b :| 0 <= b < |ps| && ps[b] == s;
      AllServed(ps, a, b);
    }
    EndToEnd(cs, boxes, nonces, Schedule(ps), ps[a], senders);
  }

  lemma NothingYet(cs: seq<Candidate>, boxes: map<Word, OpenedBox>, nonces: map<Word, Word>)
    requires GoodSetup(cs, boxes, nonces)
    ensures Start(cs, boxes, nonces).log == []
  {
    hide GoodSetup, Enrolled, EnrollSafe;
  }

  lemma PublishAll(ps: seq<Word>)
    ensures Deliveries(ps, |ps|) + Publications(ps)[..|ps|] == Schedule(ps)
  {
    assert Publications(ps)[..|ps|] == Publications(ps);
  }

  // ----- such a setup exists

  const LONE_BOX := OpenedBox([5], 7)

  lemma LoneDealer()
    ensures var cs := [Candidate(1, 1, Sealed(LONE_BOX, 1, 9))];
            && GoodSetup(cs, map[1 := LONE_BOX], map[1 := 9])
            && WeightOf(cs, 1) == 1 && Everyone(cs, {1})
  {
    hide SealedBox.VerifySignature, Sealed;
    var c := Candidate(1, 1, Sealed(LONE_BOX, 1, 9));
    var cs := [c];
    LoneVerifies();
    assert cs[..0] == [];
    assert LastIndex(cs) == 2 && CandidateOf(cs, 1) == Some(c) && RangeOf(cs, 1) == Some((1, 1));
  }

  lemma LoneVerifies()
    ensures Candidate(1, 1, Sealed(LONE_BOX, 1, 9)).Verify() && |Sealed(LONE_BOX, 1, 9).encryptedCoeff| == 1
  {
    hide SealedBox.VerifySignature;
    ReduceSmall(5);
    SealedVerifies(LONE_BOX, 1, 9);
  }
}

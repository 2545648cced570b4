/** The vote of one target height: collecting publications, the agreement they yield, and the
    replay of a published proof by a fresh verifier. */
module DelegateVote {
  import opened Words
  import opened Scalars
  import opened Boxes
  import opened Curve
  import opened SecretShare
  import opened Enrolment
  import opened Collection
  import opened Protocol

  datatype DelegateData = DelegateData(identFrom: Word, shares: ShareMap, nR: Word, nS: Word)

  /** The hash over the serialised shares, and the hash over the serialised secrets: any functions. */
  const SHARE_HASH: ShareMap -> Word
  const SECRET_HASH: seq<Word> -> Word

  predicate SignatureOk(w: Party, data: DelegateData) {
    var hash := SHARE_HASH(data.shares);
    if data.identFrom == w.ident then EccVerify(w.box.PubKey(), data.nR, data.nS, hash)
    else data.identFrom in w.participants && w.participants[data.identFrom].sBox.VerifyHash(hash, data.nR, data.nS)
  }

  /** A publication is taken: signed by the party it names, and accepted by the witness. */
  predicate Takes(w: Party, data: DelegateData) {
    SignatureOk(w, data) && w.CollectOk(data.identFrom, data.shares)
  }

  /** A publication in the name of an honest delegate is refused unless its scalar is the delegate's key plus the
      nonce's logarithm times the hash of the shares. */
  lemma SignedPublication(w: Party, cs: seq<Candidate>, boxes: map<Word, OpenedBox>, nonces: map<Word, Word>,
                          data: DelegateData)
    requires GoodSetup(cs, boxes, nonces) && Member(w, cs) && w.ident == 0 && data.identFrom in boxes
    ensures SignatureOk(w, data)
       <==> Unpack(data.nR).Some?
            && Cong(data.nS, boxes[data.identFrom].privKey + Unpack(data.nR).value.log * SHARE_HASH(data.shares))
    ensures !SignatureOk(w, data) ==> !Takes(w, data)
  {
    hide Cong, EccVerify, EccPubkey, Unpack, GoodSetup, LastIndex, RangeOf, CandidateOf, SealedBox.Prepared, Roster,
         OwnValid;
    var d, key := data.identFrom, boxes[data.identFrom].privKey;
    NonZero(cs, boxes, nonces, d);
    HonestBox(cs, boxes, nonces, d);
    HonestKey(cs, boxes, nonces, d);
    assert SeatedAs(w.participants[d], cs, d, w.box);
    SeatedBox(w, cs, d);
    VerifyExact(key, data.nR, data.nS, SHARE_HASH(data.shares));
  }

  lemma SeatedBox(w: Party, cs: seq<Candidate>, d: Word)
    requires Member(w, cs) && d in w.participants
    ensures var box := w.participants[d].sBox;
            CandidateOf(cs, d).Some? && box.pubKey == CandidateOf(cs, d).value.sBox.pubKey && !box.IsNull()
  {
    hide EccVerify, LastIndex, RangeOf, Roster, OwnValid;
    assert SeatedAs(w.participants[d], cs, d, w.box);
  }

  // ----- the agreement

  ghost predicate IsLeast(m: Word, s: set<Word>) {
    m in s && forall x :: x in s ==> m <= x
  }

  lemma {:induction false} LeastExists(s: set<Word>)
    requires s != {}
    ensures exists m :: IsLeast(m, s)
  {
    var e :| e in s;
    if s == {e} {
      assert IsLeast(e, s);
    } else {
      LeastExists(s - {e});
      var m :| IsLeast(m, s - {e});
      assert s == (s - {e}) + {e};
      assert IsLeast(if e < m then e else m, s);
    }
  }

  ghost function Least(s: set<Word>): (m: Word)
    requires s != {}
    ensures IsLeast(m, s)
  {
    LeastExists(s);
    var m :| IsLeast(m, s);
    m
  }

  /** The keys of an ordered map, in iteration order. */
  ghost function Ascending(s: set<Word>): seq<Word> {
    if s == {} then [] else [Least(s)] + Ascending(s - {Least(s)})
  }

  lemma {:induction false} AscendingKeys(secrets: map<Word, (Word, nat)>, s: set<Word>)
    requires s <= secrets.Keys
    ensures KeysIn(secrets, Ascending(s))
  {
    if s != {} { AscendingKeys(secrets, s - {Least(s)}); }
  }

  datatype Agreement = Agreement(value: Word, weight: nat, ballot: map<Word, nat>)

  ghost predicate KeysIn(secrets: map<Word, (Word, nat)>, keys: seq<Word>) {
    forall i :: 0 <= i < |keys| ==> keys[i] in secrets
  }

  ghost function WeightSum(secrets: map<Word, (Word, nat)>, keys: seq<Word>): nat
    requires KeysIn(secrets, keys)
  {
    if keys == [] then 0 else WeightSum(secrets, keys[..|keys|-1]) + secrets[keys[|keys|-1]].1
  }

  /** The secrets as they are written to the stream. */
  ghost function SecretList(secrets: map<Word, (Word, nat)>, keys: seq<Word>): seq<Word>
    requires KeysIn(secrets, keys)
  {
    if keys == [] then [] else SecretList(secrets, keys[..|keys|-1]) + [secrets[keys[|keys|-1]].0]
  }

  ghost function AgreementOf(secrets: map<Word, (Word, nat)>): Agreement {
    var keys := Ascending(secrets.Keys);
    AscendingKeys(secrets, secrets.Keys);
    if secrets == map[] then Agreement(0, 0, map[])
    else Agreement(SECRET_HASH(SecretList(secrets, keys)), WeightSum(secrets, keys),
                   map k | k in secrets :: secrets[k].1)
  }

  lemma AppendKey(secrets: map<Word, (Word, nat)>, keys: seq<Word>, k: Word)
    requires KeysIn(secrets, keys) && k in secrets
    ensures KeysIn(secrets, keys + [k])
    ensures SecretList(secrets, keys + [k]) == SecretList(secrets, keys) + [secrets[k].0]
    ensures WeightSum(secrets, keys + [k]) == WeightSum(secrets, keys) + secrets[k].1
  {
    assert (keys + [k])[..|keys|] == keys;
  }

  lemma SumsOfNone(secrets: map<Word, (Word, nat)>)
    ensures KeysIn(secrets, []) && SecretList(secrets, []) == [] && WeightSum(secrets, []) == 0
    ensures Ascending({}) == []
  {
  }

  lemma AscendingStep(s: set<Word>, keys: seq<Word>)
    requires s != {}
    ensures keys + Ascending(s) == keys + [Least(s)] + Ascending(s - {Least(s)})
  {
  }

  // ----- the agreement without the order of evaluation

  /** All elements of a set, smallest first. */
  ghost predicate Enumerates(ks: seq<Word>, s: set<Word>) {
    && (forall i, j :: 0 <= i < j < |ks| ==> ks[i] < ks[j])
    && forall x :: x in ks <==> x in s
  }

  /** The secrets in that order. */
  ghost predicate SecretsOf(secrets: map<Word, (Word, nat)>, ks: seq<Word>, l: seq<Word>) {
    |l| == |ks| && forall i :: 0 <= i < |ks| ==> ks[i] in secrets && l[i] == secrets[ks[i]].0
  }

  ghost function BallotSum(ballot: map<Word, nat>, ks: seq<Word>): nat {
    if ks == [] then 0
    else BallotSum(ballot, ks[..|ks|-1]) + if ks[|ks|-1] in ballot then ballot[ks[|ks|-1]] else 0
  }

  /** The value is the hash of the secrets in ascending order of identity, the ballot gives every one its weight,
      and the weight is their sum. */
  ghost predicate AgreesOn(secrets: map<Word, (Word, nat)>, a: Agreement) {
    && a.ballot.Keys == secrets.Keys
    && (forall k :: k in secrets ==> a.ballot[k] == secrets[k].1)
    && (secrets == map[] ==> a.value == 0)
    && forall ks :: Enumerates(ks, secrets.Keys) ==>
         && a.weight == BallotSum(a.ballot, ks)
         && forall l :: SecretsOf(secrets, ks, l) && l != [] ==> a.value == SECRET_HASH(l)
  }

  lemma {:induction false} AscendingEnumerates(s: set<Word>)
    ensures Enumerates(Ascending(s), s)
  {
    if s != {} {
      var m := Least(s);
      var rest := Ascending(s - {m});
      AscendingEnumerates(s - {m});
      assert Ascending(s) == [m] + rest;
      forall x ensures x in Ascending(s) <==> x in s {
        assert x in [m] + rest <==> x == m || x in rest;
      }
      forall j | 0 <= j < |rest| ensures m < rest[j] {
        assert rest[j] in rest;
      }
    }
  }

  lemma {:induction false} OneEnumeration(ks: seq<Word>, ls: seq<Word>, s: set<Word>)
    requires Enumerates(ks, s) && Enumerates(ls, s)
    ensures ks == ls
    decreases s
  {
    assert (ks != [] ==> ks[0] in ks) && (ls != [] ==> ls[0] in ls);
    if s != {} {
      var m := Least(s);
      FirstLeast(ks, s);
      FirstLeast(ls, s);
      OneEnumeration(ks[1..], ls[1..], s - {m});
      assert ks == [ks[0]] + ks[1..] && ls == [ls[0]] + ls[1..];
    }
  }

  lemma FirstLeast(ks: seq<Word>, s: set<Word>)
    requires Enumerates(ks, s) && s != {}
    ensures ks != [] && ks[0] == Least(s) && Enumerates(ks[1..], s - {Least(s)})
  {
    var m := Least(s);
    assert m in ks;
    var i :| 0 <= i < |ks| && ks[i] == m;
    assert ks[0] in ks;
    assert i == 0;
    forall x ensures x in ks[1..] <==> x in s - {m} {
      if x in ks[1..] {
        var j :| 0 <= j < |ks[1..]| && ks[1..][j] == x;
        assert ks[j+1] in ks;
      }
      if x in s - {m} {
        assert x in ks;
        var j :| 0 <= j < |ks| && ks[j] == x;
        assert ks[1..][j-1] == x;
      }
    }
  }

  lemma {:induction false} ListsAgree(secrets: map<Word, (Word, nat)>, ks: seq<Word>, ballot: map<Word, nat>)
    requires KeysIn(secrets, ks) && ballot.Keys == secrets.Keys
    requires forall k :: k in secrets ==> ballot[k] == secrets[k].1
    ensures SecretsOf(secrets, ks, SecretList(secrets, ks)) && WeightSum(secrets, ks) == BallotSum(ballot, ks)
  {
    if ks != [] {
      var before := ks[..|ks|-1];
      ListsAgree(secrets, before, ballot);
      var l := SecretList(secrets, before);
      forall i | 0 <= i < |ks| ensures SecretList(secrets, ks)[i] == secrets[ks[i]].0 {
        if i < |before| { assert before[i] == ks[i] && l[i] == secrets[before[i]].0; }
      }
    }
  }

  /** The agreement of a map of secrets is the only one that agrees on it. */
  lemma AgreementIs(secrets: map<Word, (Word, nat)>, a: Agreement)
    ensures AgreesOn(secrets, a) <==> a == AgreementOf(secrets)
  {
    hide Ascending, SecretList, WeightSum;
    var keys, r := Ascending(secrets.Keys), AgreementOf(secrets);
    AscendingEnumerates(secrets.Keys);
    AscendingKeys(secrets, secrets.Keys);
    ListsAgree(secrets, keys, r.ballot);
    assert keys != [] ==> keys[0] in keys;
    if secrets != map[] {
      var k :| k in secrets;
      assert k in keys;
    }
    forall ks | Enumerates(ks, secrets.Keys)
      ensures ks == keys
    {
      OneEnumeration(ks, keys, secrets.Keys);
    }
    forall l | SecretsOf(secrets, keys, l)
      ensures l == SecretList(secrets, keys)
    {
    }
    if AgreesOn(secrets, a) { assert a.ballot == r.ballot; }
  }

  /** Secrets in ascending order of identity, total weight, and ballot. */
  method Tally(secrets: map<Word, (Word, nat)>) returns (a: Agreement)
    ensures a == AgreementOf(secrets) && AgreesOn(secrets, a)
  {
    hide SecretList, WeightSum, Ascending, Least, IsLeast, KeysIn, AgreesOn;
    AgreementIs(secrets, AgreementOf(secrets));
    if secrets == map[] {
      return Agreement(0, 0, map[]);
    }
    var values, weight, ballot := Listing(secrets);
    assert ballot == map k | k in secrets :: secrets[k].1;
    a := Agreement(SECRET_HASH(values), weight, ballot);
  }

  /** The loop over the secrets, smallest identity first. */
  method Listing(secrets: map<Word, (Word, nat)>)
    returns (values: seq<Word>, weight: nat, ballot: map<Word, nat>)
    ensures KeysIn(secrets, Ascending(secrets.Keys))
    ensures values == SecretList(secrets, Ascending(secrets.Keys))
    ensures weight == WeightSum(secrets, Ascending(secrets.Keys))
    ensures ballot.Keys == secrets.Keys && forall k :: k in ballot ==> ballot[k] == secrets[k].1
  {
    hide SecretList, WeightSum, Ascending, Least, IsLeast, KeysIn;
    AscendingKeys(secrets, secrets.Keys);
    SumsOfNone(secrets);
    var todo := secrets.Keys;
    values, weight, ballot := [], 0, map[];
    ghost var all, ids: seq<Word> := Ascending(secrets.Keys), [];
    while todo != {}
      invariant todo <= secrets.Keys && ids + Ascending(todo) == all && KeysIn(secrets, ids)
      invariant values == SecretList(secrets, ids) && weight == WeightSum(secrets, ids)
      invariant ballot.Keys == secrets.Keys - todo && forall k :: k in ballot ==> ballot[k] == secrets[k].1
      decreases todo
    {
      var k := MinKey(todo);
      AppendKey(secrets, ids, k);
      AscendingStep(todo, ids);
      ids := ids + [k];
      values := values + [secrets[k].0];
      weight := weight + secrets[k].1;
      ballot := ballot[k := secrets[k].1];
      todo := todo - {k};
    }
    assert ids == ids + [] == all;
  }

  method MinKey(s: set<Word>) returns (m: Word)
    requires s != {}
    ensures m in s && m == Least(s)
  {
    var rest := s;
    m :| m in s;
    while rest != {}
      invariant rest <= s && m in s
      invariant forall x :: x in s && x !in rest ==> m <= x
      decreases rest
    {
      var x :| x in rest;
      if x < m { m := x; }
      rest := rest - {x};
    }
    assert IsLeast(m, s);
  }

  // ----- the vote object

  class CMvDelegateVote {
    const collector: CMPSecretShare
    var collected: seq<DelegateData>

    constructor (collector: CMPSecretShare)
      ensures this.collector == collector && collected == []
    {
      this.collector := collector;
      collected := [];
    }

    /** A refused publication leaves the witness and the collected list as they were. */
    method Collect(destFrom: Word, data: DelegateData) returns (ok: bool, completed: bool)
      requires collector.View().InBounds()
      modifies this, collector
      ensures collector.View().InBounds()
      ensures ok == (data.identFrom == destFrom && old(Takes(collector.View(), data)))
      ensures ok ==> collector.View() == old(collector.View()).Collected(data.identFrom, data.shares)
      ensures ok ==> collected == old(collected) + [data]
      ensures !ok ==> collector.View() == old(collector.View()) && collected == old(collected)
      ensures VoteState(collector.View(), collected)
              == VoteStep(VoteState(old(collector.View()), old(collected)), Call(destFrom, data))
    {
      ok, completed := false, false;
      if data.identFrom == destFrom && SignatureOk(collector.View(), data) {
        ok, completed := collector.Collect(data.identFrom, data.shares);
        if ok {
          collected := collected + [data];
        }
      }
    }

    method GetAgreement() returns (a: Agreement)
      requires collector.View().InBounds()
      ensures a == AgreementOf(collector.View().Reconstructed()) && AgreesOn(collector.View().Reconstructed(), a)
    {
      hide AgreesOn;
      hide SharesInTable, Party.InBounds, Party.Reconstructed;
      var secrets := collector.Reconstruct();
      a := Tally(secrets);
    }

    /** Verification of a published proof by replaying its publications. An empty claim passes at once and leaves
        the caller's agreement, weight and ballot as they were; a refused publication leaves them too. The claimed
        weight plays no other part: it is never compared with the weight tallied. */
    method VerifyProof(weight: nat, agreement: Word, publishes: seq<DelegateData>, was: Agreement)
      returns (ok: bool, a: Agreement)
      requires collector.View().InBounds()
      modifies collector
      ensures weight == 0 && agreement == 0 ==> ok && a == was && collector.View() == old(collector.View())
      ensures !(weight == 0 && agreement == 0) && !ReplayOk(old(collector.View()), publishes) ==> !ok && a == was
      ensures !(weight == 0 && agreement == 0) && ReplayOk(old(collector.View()), publishes) ==>
                && Replay(old(collector.View()), publishes).InBounds()
                && a == AgreementOf(Replay(old(collector.View()), publishes).Reconstructed())
                && ok == (a.value == agreement)
    {
      hide Party.InBounds, Party.Reconstructed, AgreementOf, Takes;
      a := was;
      if weight == 0 && agreement == 0 {
        return true, a;
      }
      ghost var w := collector.View();
      for i := 0 to |publishes|
        invariant collector.View().InBounds()
        invariant ReplayOk(w, publishes[..i])
        invariant collector.View() == Replay(w, publishes[..i])
      {
        var data := publishes[i];
        assert publishes[..i+1][..i] == publishes[..i];
        ghost var before := collector.View();
        TakesEither(before, data);
        if !SignatureOk(collector.View(), data) {
          ReplayFails(w, publishes, i);
          return false, a;
        }
        var taken, completed := collector.Collect(data.identFrom, data.shares);
        if !taken {
          ReplayFails(w, publishes, i);
          return false, a;
        }
      }
      assert publishes[..|publishes|] == publishes;
      a := GetAgreement();
      ok := a.value == agreement;
    }
  }

  lemma TakesEither(w: Party, data: DelegateData)
    ensures Takes(w, data) <==> SignatureOk(w, data) && w.CollectOk(data.identFrom, data.shares)
  {
  }

  // ----- replay

  /** The witness after the publications, each collected unconditionally. */
  function Replay(w: Party, ds: seq<DelegateData>): Party {
    if ds == [] then w else Replay(w, ds[..|ds|-1]).CollectStep(ds[|ds|-1].identFrom, ds[|ds|-1].shares)
  }

  /** Every publication is taken in turn. */
  ghost predicate ReplayOk(w: Party, ds: seq<DelegateData>) {
    ds == [] || (ReplayOk(w, ds[..|ds|-1]) && Takes(Replay(w, ds[..|ds|-1]), ds[|ds|-1]))
  }

  lemma {:induction false} ReplayFails(w: Party, ds: seq<DelegateData>, i: nat)
    requires i < |ds| && !Takes(Replay(w, ds[..i]), ds[i])
    ensures !ReplayOk(w, ds)
    decreases |ds|
  {
    hide Takes;
    if i < |ds| - 1 {
      assert ds[..|ds|-1][..i] == ds[..i];
      ReplayFails(w, ds[..|ds|-1], i);
    }
  }

  /** One call of Collect on a vote: where it claims to come from, and its data. */
  datatype Call = Call(destFrom: Word, data: DelegateData)

  datatype VoteState = VoteState(collector: Party, collected: seq<DelegateData>)

  function VoteStep(v: VoteState, c: Call): VoteState {
    if c.data.identFrom == c.destFrom && Takes(v.collector, c.data)
    then VoteState(v.collector.Collected(c.data.identFrom, c.data.shares), v.collected + [c.data])
    else v
  }

  function VoteRun(w: Party, calls: seq<Call>): VoteState {
    if calls == [] then VoteState(w, []) else VoteStep(VoteRun(w, calls[..|calls|-1]), calls[|calls|-1])
  }

  /** In every run the witness is the fold of the collected list, and the list replays. */
  lemma {:induction false} RunIsReplay(w: Party, calls: seq<Call>)
    ensures VoteRun(w, calls).collector == Replay(w, VoteRun(w, calls).collected)
    ensures ReplayOk(w, VoteRun(w, calls).collected)
  {
    if calls != [] {
      var v, c := VoteRun(w, calls[..|calls|-1]), calls[|calls|-1];
      RunIsReplay(w, calls[..|calls|-1]);
      var now := VoteRun(w, calls);
      if now != v {
        assert now.collected[..|now.collected|-1] == v.collected;
      }
    }
  }

  lemma {:induction false} ReplayInBounds(w: Party, ds: seq<DelegateData>)
    requires w.InBounds()
    ensures Replay(w, ds).InBounds()
  {
    hide Party.InBounds;
    if ds != [] {
      ReplayInBounds(w, ds[..|ds|-1]);
      CollectInBounds(Replay(w, ds[..|ds|-1]), ds[|ds|-1].identFrom, ds[|ds|-1].shares);
    }
  }

  /** A proof made from any run of a vote is accepted by a verifier that enrolled the same candidates,
      and leaves it with the vote's witness, hence the same agreement, weight and ballot; every
      publication in it was taken exactly as the vote took it. */
  lemma ProofReplay(cs: seq<Candidate>, calls: seq<Call>)
    requires Roster(cs)
    ensures EnrollSafe(Fresh(0, WITNESS_BOX), cs)
    ensures var verifier := Enrolled(Fresh(0, WITNESS_BOX), cs);
            var made := VoteRun(verifier, calls);
            && ReplayOk(verifier, made.collected)
            && Replay(verifier, made.collected) == made.collector
            && made.collector.InBounds()
  {
    hide Party.InBounds, Enrolled, EnrollSafe;
    EnrolledIsMember(0, WITNESS_BOX, cs);
    var w := Enrolled(Fresh(0, WITNESS_BOX), cs);
    RunIsReplay(w, calls);
    MemberInBounds(w, cs);
    ReplayInBounds(w, VoteRun(w, calls).collected);
  }

  lemma MemberInBounds(p: Party, cs: seq<Candidate>)
    requires Member(p, cs) && p.openedShare == map[]
    ensures p.InBounds()
  {
    hide Member, OpenedOk;
    forall d
      ensures OpenedOk(p, cs, [], d)
    {
      OpenedNothing(p, cs, d);
    }
    InvInBounds(p, cs, []);
  }

  // ----- consensus

  lemma MapEqual(a: map<Word, (Word, nat)>, b: map<Word, (Word, nat)>)
    requires forall d :: d in a <==> d in b
    requires forall d :: d in a && d in b ==> a[d] == b[d]
    ensures a == b
  {
  }

  /** Two witnesses that recover the same dealers reach the same agreement, weight and ballot, even
      if they collected different messages from different senders in a different order. */
  lemma AgreementConsensus(p1: Party, log1: seq<Message>, p2: Party, log2: seq<Message>, cs: seq<Candidate>)
    requires CollectInv(p1, cs, log1) && CollectInv(p2, cs, log2)
    requires p1.ident == 0 && p2.ident == 0
    requires forall d :: SumOver(cs, Contributors(log1, d)) >= T(cs) <==> SumOver(cs, Contributors(log2, d)) >= T(cs)
    ensures p1.InBounds() && p2.InBounds()
    ensures AgreementOf(p1.Reconstructed()) == AgreementOf(p2.Reconstructed())
  {
    hide OpenedOk, Member, Party.Reconstructed, Party.InBounds, SumOver, Contributors, T, PolyOf, AgreementOf;
    InvInBounds(p1, cs, log1);
    InvInBounds(p2, cs, log2);
    forall d
      ensures d in p1.Reconstructed() <==> d in p2.Reconstructed()
      ensures d in p1.Reconstructed() && d in p2.Reconstructed() ==> p1.Reconstructed()[d] == p2.Reconstructed()[d]
    {
      ReconstructExact(p1, cs, log1, d);
      ReconstructExact(p2, cs, log2, d);
      SameSeats(p1, p2, cs, d);
    }
    MapEqual(p1.Reconstructed(), p2.Reconstructed());
  }

  /** A candidate whose secret the witness of a run recovers. */
  ghost predicate Recovered(n: Net, cs: seq<Candidate>, d: Word) {
    WeightOf(cs, d) > 0 && SumOver(cs, Contributors(n.log, d)) >= T(cs)
  }

  /** In every run the agreement is the hash of the secrets the recovered candidates committed to, an honest
      dealer's own constant term among them, in ascending order of identity; the ballot holds their weights. */
  lemma RunAgreement(cs: seq<Candidate>, boxes: map<Word, OpenedBox>, nonces: map<Word, Word>, es: seq<Event>,
                     ks: seq<Word>, l: seq<Word>)
    requires GoodSetup(cs, boxes, nonces) && NoRepeats(cs, Run(Start(cs, boxes, nonces), es).log)
    requires forall i, j :: 0 <= i < j < |ks| ==> ks[i] < ks[j]
    requires forall d :: d in ks <==> Recovered(Run(Start(cs, boxes, nonces), es), cs, d)
    requires |l| == |ks| && forall i :: 0 <= i < |ks| ==>
               if ks[i] in boxes then boxes[ks[i]].coeff != [] && l[i] == boxes[ks[i]].coeff[0]
               else Committing(cs, ks[i]) && l[i] == CommittedSecret(cs, ks[i])
    ensures var w := Run(Start(cs, boxes, nonces), es).collector;
            && w.InBounds()
            && var a := AgreementOf(w.Reconstructed());
               && a.value == (if ks == [] then 0 else SECRET_HASH(l))
               && a.ballot == (map d | d in ks :: WeightOf(cs, d))
               && a.weight == BallotSum(a.ballot, ks)
  {
    hide GoodSetup, Run, Start, NoRepeats, AgreementOf, Party.Reconstructed, Party.InBounds, WeightOf, T, SumOver;
    hide CommittedSecret, Committing, Contributors;
    var n := Run(Start(cs, boxes, nonces), es);
    var w := n.collector;
    RunReconstructs(cs, boxes, nonces, es, 0);
    var secrets := w.Reconstructed();
    forall d
      ensures d in secrets <==> d in ks
      ensures d in secrets ==> secrets[d].1 == WeightOf(cs, d)
      ensures d in secrets && d in boxes ==> boxes[d].coeff != [] && secrets[d].0 == boxes[d].coeff[0]
      ensures d in secrets ==> Committing(cs, d) && secrets[d].0 == CommittedSecret(cs, d)
    {
      RunReconstructs(cs, boxes, nonces, es, d);
    }
    assert forall i :: 0 <= i < |ks| ==> ks[i] in ks;
    assert Enumerates(ks, secrets.Keys) && SecretsOf(secrets, ks, l);
    AgreementIs(secrets, AgreementOf(secrets));
    assert ks != [] ==> ks[0] in secrets;
    assert secrets != map[] ==> ks != [];
    assert AgreementOf(secrets).ballot == map d | d in ks :: WeightOf(cs, d);
  }

  lemma SameSeats(p1: Party, p2: Party, cs: seq<Candidate>, d: Word)
    requires Member(p1, cs) && Member(p2, cs) && p1.ident == 0 && p2.ident == 0
    ensures p1.Range(d) == p2.Range(d)
    ensures d == 0 ==> p1.Range(d) == Some((0, 0))
    ensures d != 0 && p1.Range(d).Some? ==> PolyOf(p1, cs, d) == PolyOf(p2, cs, d)
  {
    hide SealedBox.VerifySignature, SealedBox.Prepared, OpenedBox.SharedKey, LastIndex, RangeOf, CandidateOf;
    assert RangeOf(cs, 0).None? by { NotListed(cs, 0); }
    if p1.Range(d).Some? { MemberRange(p1, cs, d); }
    if p2.Range(d).Some? { MemberRange(p2, cs, d); }
  }
}

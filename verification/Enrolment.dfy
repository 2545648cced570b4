/** What enrolment agrees on: index ranges and threshold as functions of the candidate list alone. */
module Enrolment {
  import opened Words
  import opened Boxes
  import opened SecretShare

  /** One past the last index, counting the candidates whose box verifies. */
  function LastIndex(cs: seq<Candidate>): (n: nat)
    ensures n >= 1
  {
    if cs == [] then 1
    else LastIndex(cs[..|cs|-1]) + if cs[|cs|-1].Verify() then cs[|cs|-1].weight else 0
  }

  /** The verified candidate with this identity. */
  function CandidateOf(cs: seq<Candidate>, d: Word): (r: Option<Candidate>)
    ensures r.Some? ==> r.value in cs && r.value.ident == d && r.value.Verify()
  {
    if cs == [] then None
    else if cs[|cs|-1].ident == d && cs[|cs|-1].Verify() then Some(cs[|cs|-1])
    else CandidateOf(cs[..|cs|-1], d)
  }

  /** First index and weight of a candidate. */
  function RangeOf(cs: seq<Candidate>, d: Word): Option<(nat, nat)> {
    if cs == [] then None
    else if cs[|cs|-1].ident == d && cs[|cs|-1].Verify() then Some((LastIndex(cs[..|cs|-1]), cs[|cs|-1].weight))
    else RangeOf(cs[..|cs|-1], d)
  }

  ghost predicate DistinctIdents(cs: seq<Candidate>) {
    forall i, j :: 0 <= i < j < |cs| ==> cs[i].ident != cs[j].ident
  }

  /** If this identity is a candidate, its box verifies. */
  ghost predicate OwnValid(ident: Word, cs: seq<Candidate>) {
    forall i :: 0 <= i < |cs| && cs[i].ident == ident ==> cs[i].Verify()
  }

  /** What the witness has in place of a dealt polynomial. */
  const WITNESS_BOX := OpenedBox([], 0)

  function Fresh(ident: Word, box: OpenedBox): Party {
    Party(ident, box, 0, 0, 0, map[], map[])
  }

  function NewParticipant(cs: seq<Candidate>, d: Word, box: OpenedBox): Participant
    requires CandidateOf(cs, d).Some? && RangeOf(cs, d).Some?
  {
    var c, r := CandidateOf(cs, d).value, RangeOf(cs, d).value;
    Participant(r.1, r.0, c.sBox, box.SharedKey(c.sBox.pubKey), [])
  }

  lemma {:induction false} RangeIsCandidate(cs: seq<Candidate>, d: Word)
    ensures RangeOf(cs, d).Some? <==> CandidateOf(cs, d).Some?
    ensures RangeOf(cs, d).Some? ==> RangeOf(cs, d).value.1 == CandidateOf(cs, d).value.weight
  {
    hide SealedBox.VerifySignature;
    if cs != [] { RangeIsCandidate(cs[..|cs|-1], d); }
  }

  lemma {:induction false} NotListed(cs: seq<Candidate>, d: Word)
    requires forall i :: 0 <= i < |cs| ==> cs[i].ident != d
    ensures RangeOf(cs, d).None?
  {
    if cs != [] { NotListed(cs[..|cs|-1], d); }
  }

  /** The roll depends on the party only through its identity and its keys. */
  ghost predicate RollIs(r: Roll, cs: seq<Candidate>, ident: Word, box: OpenedBox) {
    && r.lastIndex == LastIndex(cs)
    && r.party.ident == ident && r.party.box == box && r.party.thresh == 0 && r.party.openedShare == map[]
    && (r.party.index, r.party.weight) == (if RangeOf(cs, ident).Some? then RangeOf(cs, ident).value else (0, 0))
    && (forall d :: d in r.party.participants <==> d != ident && RangeOf(cs, d).Some?)
    && (forall d :: d in r.party.participants ==>
          CandidateOf(cs, d).Some? && r.party.participants[d] == NewParticipant(cs, d, box))
  }

  lemma LookupUnchanged(cs: seq<Candidate>)
    requires cs != []
    ensures forall d :: d != cs[|cs|-1].ident || !cs[|cs|-1].Verify() ==>
              RangeOf(cs, d) == RangeOf(cs[..|cs|-1], d) && CandidateOf(cs, d) == CandidateOf(cs[..|cs|-1], d)
  {
  }

  lemma {:induction false} EnrollRoll(ident: Word, box: OpenedBox, cs: seq<Candidate>)
    requires DistinctIdents(cs) && OwnValid(ident, cs)
    ensures RollIs(EnrollAll(Fresh(ident, box), cs), cs, ident, box)
  {
    hide SealedBox.VerifySignature, OpenedBox.SharedKey;
    if cs != [] {
      EnrollRoll(ident, box, cs[..|cs|-1]);
      RollStep(EnrollAll(Fresh(ident, box), cs[..|cs|-1]), cs, ident, box);
    }
  }

  lemma RollStep(r: Roll, cs: seq<Candidate>, ident: Word, box: OpenedBox)
    requires cs != [] && DistinctIdents(cs) && OwnValid(ident, cs)
    requires RollIs(r, cs[..|cs|-1], ident, box)
    ensures RollIs(EnrollOne(r, cs[|cs|-1]), cs, ident, box)
  {
    hide SealedBox.VerifySignature, OpenedBox.SharedKey, RangeOf, CandidateOf, LastIndex, Candidate.Verify;
    var c := cs[|cs|-1];
    NotListed(cs[..|cs|-1], c.ident);
    LookupUnchanged(cs);
    LookupLast(cs);
    var now := EnrollOne(r, c);
    if c.Verify() {
      if c.ident != ident {
        assert now.party.participants == r.party.participants[c.ident := NewParticipant(cs, c.ident, box)];
      }
    } else {
      assert now == r;
    }
  }

  lemma LookupLast(cs: seq<Candidate>)
    requires cs != []
    ensures var before, c := cs[..|cs|-1], cs[|cs|-1];
            if c.Verify()
            then RangeOf(cs, c.ident) == Some((LastIndex(before), c.weight)) && CandidateOf(cs, c.ident) == Some(c)
                 && LastIndex(cs) == LastIndex(before) + c.weight
            else LastIndex(cs) == LastIndex(before)
  {
  }

  // ----- the ranges partition the indices

  ghost predicate Covers(r: Option<(nat, nat)>, x: nat) {
    r.Some? && r.value.0 <= x < r.value.0 + r.value.1
  }

  lemma {:induction false} RangeBelowLast(cs: seq<Candidate>, d: Word)
    requires RangeOf(cs, d).Some?
    ensures 1 <= RangeOf(cs, d).value.0 && RangeOf(cs, d).value.0 + RangeOf(cs, d).value.1 <= LastIndex(cs)
  {
    hide SealedBox.VerifySignature;
    var before, c := cs[..|cs|-1], cs[|cs|-1];
    if !(c.ident == d && c.Verify()) { RangeBelowLast(before, d); }
  }

  lemma {:induction false} RangesDisjoint(cs: seq<Candidate>, d: Word, e: Word, x: nat)
    requires Covers(RangeOf(cs, d), x) && Covers(RangeOf(cs, e), x)
    ensures d == e
  {
    hide SealedBox.VerifySignature;
    var before, c := cs[..|cs|-1], cs[|cs|-1];
    if c.Verify() && c.ident == d {
      if c.ident != e { RangeBelowLast(before, e); }
    } else if c.Verify() && c.ident == e {
      RangeBelowLast(before, d);
    } else {
      RangesDisjoint(before, d, e, x);
    }
  }

  lemma {:induction false} RangesCover(cs: seq<Candidate>, x: nat) returns (d: Word)
    requires DistinctIdents(cs) && 1 <= x < LastIndex(cs)
    ensures Covers(RangeOf(cs, d), x)
  {
    hide SealedBox.VerifySignature;
    var before, c := cs[..|cs|-1], cs[|cs|-1];
    if x < LastIndex(before) {
      d := RangesCover(before, x);
      if c.ident == d { NotListed(before, d); }
    } else {
      d := c.ident;
    }
  }

  /** Each index below the last belongs to exactly one candidate, and to no one outside that span. */
  lemma RangesPartition(cs: seq<Candidate>, x: nat)
    requires DistinctIdents(cs)
    ensures 1 <= x < LastIndex(cs) <==> exists d :: Covers(RangeOf(cs, d), x)
    ensures forall d, e :: Covers(RangeOf(cs, d), x) && Covers(RangeOf(cs, e), x) ==> d == e
  {
    if 1 <= x < LastIndex(cs) {
      var d := RangesCover(cs, x);
    }
    forall d | Covers(RangeOf(cs, d), x)
      ensures 1 <= x < LastIndex(cs)
    {
      RangeBelowLast(cs, d);
    }
    forall d, e | Covers(RangeOf(cs, d), x) && Covers(RangeOf(cs, e), x)
      ensures d == e
    {
      RangesDisjoint(cs, d, e, x);
    }
  }

  // ----- agreement

  /** A usable candidate list: distinct non-zero identities, indices inside the tables, and enough
      commitments in every verified box. */
  ghost predicate Roster(cs: seq<Candidate>) {
    && DistinctIdents(cs)
    && (forall i :: 0 <= i < |cs| ==> cs[i].ident != 0)
    && LastIndex(cs) <= POW_TABLE_ROWS + 1
    && forall i :: 0 <= i < |cs| && cs[i].Verify() ==> Threshold(LastIndex(cs)) <= |cs[i].sBox.encryptedCoeff|
  }

  /** The threshold is a strict majority of the enrolled weight, and two complementary minorities
      cannot both reach it. */
  lemma ThresholdMajority(cs: seq<Candidate>)
    ensures var total, t := LastIndex(cs) - 1, Threshold(LastIndex(cs));
            2 * t > total && 2 * (t - 1) <= total && (total > 0 ==> t <= total)
  {
  }

  lemma EnrollIsSafe(ident: Word, box: OpenedBox, cs: seq<Candidate>)
    requires Roster(cs) && OwnValid(ident, cs)
    ensures EnrollSafe(Fresh(ident, box), cs)
  {
    hide OpenedBox.SharedKey;
    EnrollRoll(ident, box, cs);
    var r := EnrollAll(Fresh(ident, box), cs);
    forall k | k in r.party.participants
      ensures Threshold(r.lastIndex) <= |r.party.participants[k].sBox.encryptedCoeff|
              && r.party.participants[k].sBox.Unpacks()
    {
      var c := CandidateOf(cs, k).value;
      var i :| 0 <= i < |cs| && cs[i] == c;
    }
  }

  /** Any two parties that enrol the same list agree on the threshold and on every candidate's range. */
  lemma EnrolmentAgreement(i1: Word, b1: OpenedBox, i2: Word, b2: OpenedBox, cs: seq<Candidate>, d: Word)
    requires Roster(cs) && OwnValid(i1, cs) && OwnValid(i2, cs) && CandidateOf(cs, d).Some?
    ensures EnrollSafe(Fresh(i1, b1), cs) && EnrollSafe(Fresh(i2, b2), cs)
    ensures var p1, p2 := Enrolled(Fresh(i1, b1), cs), Enrolled(Fresh(i2, b2), cs);
            p1.thresh == p2.thresh && p1.Range(d) == p2.Range(d) == RangeOf(cs, d)
  {
    hide OpenedBox.SharedKey, SealedBox.Prepared, SealedBox.VerifySignature;
    EnrollIsSafe(i1, b1, cs);
    EnrollIsSafe(i2, b2, cs);
    EnrollRoll(i1, b1, cs);
    EnrollRoll(i2, b2, cs);
    RangeIsCandidate(cs, d);
  }
}

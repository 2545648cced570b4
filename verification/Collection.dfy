/** What a party has opened, and what it reconstructs, after any sequence of collected messages. */
module Collection {
  import opened Words
  import opened Scalars
  import opened Polynomials
  import opened Boxes
  import opened Interpolation
  import opened SecretShare
  import opened Enrolment

  function T(cs: seq<Candidate>): nat { Threshold(LastIndex(cs)) }

  /** A participant record as enrolment leaves it. */
  function Seat(cs: seq<Candidate>, d: Word, box: OpenedBox): Participant
    requires CandidateOf(cs, d).Some? && RangeOf(cs, d).Some?
    requires T(cs) <= |CandidateOf(cs, d).value.sBox.encryptedCoeff|
  {
    var q := NewParticipant(cs, d, box);
    q.(sBox := q.sBox.Prepared(T(cs), LastIndex(cs)))
  }

  /** A party enrolled with this list, whatever it has accepted or collected since. */
  ghost predicate Member(p: Party, cs: seq<Candidate>) {
    && Roster(cs) && OwnValid(p.ident, cs)
    && p.thresh == T(cs)
    && (p.index, p.weight) == (if RangeOf(cs, p.ident).Some? then RangeOf(cs, p.ident).value else (0, 0))
    && (forall d :: d in p.participants <==> d != p.ident && RangeOf(cs, d).Some?)
    && (forall d :: d in p.participants ==> SeatedAs(p.participants[d], cs, d, p.box))
  }

  ghost predicate SeatedAs(q: Participant, cs: seq<Candidate>, d: Word, box: OpenedBox) {
    && CandidateOf(cs, d).Some? && RangeOf(cs, d).Some?
    && T(cs) <= |CandidateOf(cs, d).value.sBox.encryptedCoeff|
    && q.(shares := []) == Seat(cs, d, box)
  }

  lemma RosterBoxes(cs: seq<Candidate>, d: Word)
    requires Roster(cs) && RangeOf(cs, d).Some?
    ensures CandidateOf(cs, d).Some? && T(cs) <= |CandidateOf(cs, d).value.sBox.encryptedCoeff|
    ensures CandidateOf(cs, d).value.sBox.Unpacks()
  {
    RangeIsCandidate(cs, d);
    var i :| 0 <= i < |cs| && cs[i] == CandidateOf(cs, d).value;
  }

  lemma EnrolledIsMember(ident: Word, box: OpenedBox, cs: seq<Candidate>)
    requires Roster(cs) && OwnValid(ident, cs)
    ensures EnrollSafe(Fresh(ident, box), cs)
    ensures var p := Enrolled(Fresh(ident, box), cs);
            && Member(p, cs) && p.ident == ident && p.box == box && p.openedShare == map[]
            && forall d :: d in p.participants ==> p.participants[d].shares == []
  {
    hide OpenedBox.SharedKey, SealedBox.Prepared, SealedBox.VerifySignature, RangeOf, CandidateOf, LastIndex;
    EnrollIsSafe(ident, box, cs);
    EnrollRoll(ident, box, cs);
    var p := Enrolled(Fresh(ident, box), cs);
    forall d | d in p.participants
      ensures SeatedAs(p.participants[d], cs, d, box)
    {
      RosterBoxes(cs, d);
    }
  }

  /** The polynomial a dealer is bound to: its own for the party itself, the committed one otherwise. */
  function PolyOf(p: Party, cs: seq<Candidate>, d: Word): Poly
    requires Member(p, cs) && p.Range(d).Some?
    requires d == p.ident ==> p.box.Sufficient(p.thresh)
  {
    if d == p.ident then p.box.coeff[..p.thresh]
    else CandidateOf(cs, d).value.sBox.Committed(T(cs))
  }

  // ----- the log of accepted messages

  datatype Message = Message(from: Word, shares: ShareMap)

  function Senders(log: seq<Message>): set<Word> {
    set i | 0 <= i < |log| :: log[i].from
  }

  /** The senders whose accepted message had an entry for dealer d. */
  function Contributors(log: seq<Message>, d: Word): (r: set<Word>)
    ensures r <= Senders(log)
  {
    set i | 0 <= i < |log| && d in log[i].shares :: log[i].from
  }

  /** Total weight of the verified candidates in a set. */
  function SumOver(cs: seq<Candidate>, a: set<Word>): nat {
    if cs == [] then 0
    else SumOver(cs[..|cs|-1], a) + if cs[|cs|-1].Verify() && cs[|cs|-1].ident in a then cs[|cs|-1].weight else 0
  }

  lemma {:induction false} SumOverUnlisted(cs: seq<Candidate>, a: set<Word>, x: Word)
    requires RangeOf(cs, x).None?
    ensures SumOver(cs, a + {x}) == SumOver(cs, a)
  {
    hide SealedBox.VerifySignature;
    if cs != [] { SumOverUnlisted(cs[..|cs|-1], a, x); }
  }

  lemma {:induction false} SumOverAdd(cs: seq<Candidate>, a: set<Word>, x: Word)
    requires DistinctIdents(cs) && x !in a && RangeOf(cs, x).Some?
    ensures SumOver(cs, a + {x}) == SumOver(cs, a) + RangeOf(cs, x).value.1
  {
    hide SealedBox.VerifySignature;
    var before, c := cs[..|cs|-1], cs[|cs|-1];
    if c.Verify() && c.ident == x {
      NotListed(before, x);
      SumOverUnlisted(before, a, x);
    } else {
      SumOverAdd(before, a, x);
    }
  }

  lemma {:induction false} SumOverMonotone(cs: seq<Candidate>, a: set<Word>, b: set<Word>)
    requires a <= b
    ensures SumOver(cs, a) <= SumOver(cs, b)
  {
    hide SealedBox.VerifySignature;
    if cs != [] { SumOverMonotone(cs[..|cs|-1], a, b); }
  }

  lemma ContributorsStep(log: seq<Message>, m: Message, d: Word)
    ensures Contributors(log + [m], d) == Contributors(log, d) + if d in m.shares then {m.from} else {}
    ensures Senders(log + [m]) == Senders(log) + {m.from}
  {
    var now := log + [m];
    forall i | 0 <= i < |log|
      ensures now[i] == log[i]
    {
    }
    assert now[|log|] == m;
    assert Contributors(log, d) <= Contributors(now, d) by {
      forall x | x in Contributors(log, d)
        ensures x in Contributors(now, d)
      {
        var i :| 0 <= i < |log| && d in log[i].shares && log[i].from == x;
        assert now[i] == log[i];
      }
    }
    assert Senders(log) <= Senders(now) by {
      forall x | x in Senders(log)
        ensures x in Senders(now)
      {
        var i :| 0 <= i < |log| && log[i].from == x;
        assert now[i] == log[i];
      }
    }
  }

  // ----- the invariant of collection

  function Min(a: nat, b: nat): nat { if a < b then a else b }

  /** The share is a true point of its dealer's polynomial, at an index owned by one of the senders. */
  ghost predicate TruePoint(s: Share, f: Poly, cs: seq<Candidate>, senders: set<Word>) {
    && 1 <= s.x <= POW_TABLE_ROWS
    && Cong(s.y, Eval(f, s.x))
    && exists e :: e in senders && Covers(RangeOf(cs, e), s.x)
  }

  /** Every index of every sender is opened. */
  ghost predicate AllOpened(list: seq<Share>, cs: seq<Candidate>, senders: set<Word>) {
    forall e, x: nat :: e in senders && Covers(RangeOf(cs, e), x) ==> x in Nodes(list)
  }

  ghost predicate OpenedOk(p: Party, cs: seq<Candidate>, log: seq<Message>, d: Word)
    requires Member(p, cs)
  {
    var list, from := p.OpenedList(d), Contributors(log, d);
    && |list| == Min(T(cs), SumOver(cs, from))
    && Distinct(Nodes(list))
    && (SumOver(cs, from) < T(cs) ==> AllOpened(list, cs, from))
    && (list != [] ==>
          && p.Range(d).Some? && (d == p.ident ==> p.box.Sufficient(p.thresh))
          && forall i :: 0 <= i < |list| ==> TruePoint(list[i], PolyOf(p, cs, d), cs, from))
  }

  /** The entry of a message for dealer d opens no index twice: it has none, or is too late, or its sender has
      not contributed to d before. */
  ghost predicate EntryFresh(cs: seq<Candidate>, log: seq<Message>, m: Message, d: Word) {
    d in m.shares ==>
      m.shares[d] == [] || SumOver(cs, Contributors(log, d)) >= T(cs) || m.from !in Contributors(log, d)
  }

  ghost predicate MessageFresh(cs: seq<Candidate>, log: seq<Message>, m: Message) {
    forall d :: EntryFresh(cs, log, m, d)
  }

  ghost predicate AllDistinct(p: Party) { forall d :: Distinct(Nodes(p.OpenedList(d))) }

  ghost predicate CollectInv(p: Party, cs: seq<Candidate>, log: seq<Message>) {
    Member(p, cs) && forall d :: OpenedOk(p, cs, log, d)
  }

  lemma MemberRange(p: Party, cs: seq<Candidate>, d: Word)
    requires Member(p, cs) && p.Range(d).Some?
    ensures RangeOf(cs, d).Some? ==>
              && p.Range(d) == RangeOf(cs, d)
              && 1 <= p.Range(d).value.0 && p.Range(d).value.0 + p.Range(d).value.1 <= LastIndex(cs)
    ensures RangeOf(cs, d).None? ==> d == p.ident && p.Range(d) == Some((0, 0))
  {
    hide SealedBox.VerifySignature, SealedBox.Prepared, OpenedBox.SharedKey, RangeOf, LastIndex, CandidateOf;
    if RangeOf(cs, d).Some? { RangeBelowLast(cs, d); }
    if d != p.ident {
      assert p.participants[d].(shares := []) == Seat(cs, d, p.box);
    }
  }

  /** An accepted entry holds true points of its dealer, one for each index of the sender. */
  lemma EntryTrue(p: Party, cs: seq<Candidate>, first: nat, d: Word, values: seq<Word>, i: nat)
    requires Member(p, cs) && p.CollectEntryOk(first, d, values) && i < |values|
    requires T(cs) >= 1
    ensures p.Range(d).Some? && (d == p.ident ==> p.box.Sufficient(p.thresh))
    ensures Cong(values[i], Eval(PolyOf(p, cs, d), first + i))
  {
    hide Cong, Eval, Reduce, SealedBox.VerifySignature, OpenedBox.SharedKey, RangeOf, LastIndex, CandidateOf;
    if d == p.ident {
      assert p.box.Value(p.thresh, first + i) == Some(values[i]);
      assert Terms(p.thresh) == p.thresh;
    } else {
      RosterBoxes(cs, d);
      var box := CandidateOf(cs, d).value.sBox;
      assert p.participants[d].sBox == box.Prepared(T(cs), LastIndex(cs));
      CommitmentBinds(box, T(cs), LastIndex(cs), first + i, values[i]);
    }
  }

  lemma CollectKeepsMember(p: Party, cs: seq<Candidate>, from: Word, m: ShareMap)
    requires Member(p, cs)
    ensures Member(p.Collected(from, m), cs)
  {
    hide SealedBox.VerifySignature, SealedBox.Prepared, OpenedBox.SharedKey, RangeOf, LastIndex, CandidateOf, Opening;
  }

  lemma OpeningAt(was: map<Word, seq<Share>>, m: ShareMap, thresh: nat, first: nat, d: Word)
    ensures Listed(Opening(was, m, m.Keys, thresh, first), d)
            == if d in m then Extend(Listed(was, d), thresh, first, m[d]) else Listed(was, d)
  {
    hide Extend;
  }

  /** Extending by true points at fresh indices keeps distinctness and truth. */
  lemma ExtendTrue(list: seq<Share>, cs: seq<Candidate>, f: Poly, senders: set<Word>, from: Word, first: nat,
                   values: seq<Word>)
    requires Roster(cs) && T(cs) >= 1 && from !in senders
    requires values != [] ==> RangeOf(cs, from) == Some((first, |values|))
    requires Distinct(Nodes(list))
    requires forall i :: 0 <= i < |list| ==> TruePoint(list[i], f, cs, senders)
    requires forall i :: 0 <= i < |values| ==> Cong(values[i], Eval(f, first + i))
    ensures var r := Extend(list, T(cs), first, values);
            && Distinct(Nodes(r))
            && forall i :: 0 <= i < |r| ==> TruePoint(r[i], f, cs, senders + {from})
  {
    hide Cong, Eval, SealedBox.VerifySignature, RangeOf, LastIndex, Extend;
    var r, n := Extend(list, T(cs), first, values), |list|;
    ExtendContents(list, T(cs), first, values);
    forall i | 0 <= i < |r|
      ensures i < n ==> r[i] == list[i]
      ensures TruePoint(r[i], f, cs, senders + {from})
      ensures i >= n ==> Covers(RangeOf(cs, from), r[i].x)
    {
      if i < n {
        assert r[i] == r[..n][i];
        var e :| e in senders && Covers(RangeOf(cs, e), r[i].x);
        assert e in senders + {from};
      } else {
        RangeBelowLast(cs, from);
        assert from in senders + {from} && Covers(RangeOf(cs, from), r[i].x);
      }
    }
    forall i, j | 0 <= i < j < |r|
      ensures r[i].x != r[j].x
    {
      if j < n {
        assert Nodes(list)[i] != Nodes(list)[j];
      } else if i < n {
        var e :| e in senders && Covers(RangeOf(cs, e), r[i].x);
        if r[i].x == r[j].x { RangesDisjoint(cs, e, from, r[j].x); }
      }
    }
  }

  lemma SumOverStep(cs: seq<Candidate>, a: set<Word>, p: Party, from: Word)
    requires Member(p, cs) && p.Range(from).Some? && from !in a
    ensures SumOver(cs, a + {from}) == SumOver(cs, a) + p.Range(from).value.1
  {
    hide SealedBox.VerifySignature, SealedBox.Prepared, OpenedBox.SharedKey, LastIndex, CandidateOf, SumOver;
    MemberRange(p, cs, from);
    if RangeOf(cs, from).Some? { SumOverAdd(cs, a, from); } else { SumOverUnlisted(cs, a, from); }
  }

  /** Opening all indices of one more sender. */
  lemma OpenedMore(list: seq<Share>, cs: seq<Candidate>, senders: set<Word>, from: Word, first: nat, values: seq<Word>)
    requires AllOpened(list, cs, senders) && |list| + |values| < T(cs)
    requires RangeOf(cs, from).Some? ==> RangeOf(cs, from).value == (first, |values|)
    ensures AllOpened(Extend(list, T(cs), first, values), cs, senders + {from})
  {
    hide Extend, RangeOf, T;
    var r, n := Extend(list, T(cs), first, values), |list|;
    ExtendContents(list, T(cs), first, values);
    forall e, x: nat | e in senders + {from} && Covers(RangeOf(cs, e), x)
      ensures x in Nodes(r)
    {
      if e in senders {
        assert x in Nodes(list);
        var i :| 0 <= i < |Nodes(list)| && Nodes(list)[i] == x;
        assert r[..n][i] == r[i] && Nodes(r)[i] == x;
      } else {
        assert Nodes(r)[n + (x - first)] == x;
      }
    }
  }

  lemma OpenedStep(p: Party, cs: seq<Candidate>, log: seq<Message>, m: Message, d: Word)
    requires CollectInv(p, cs, log) && p.CollectOk(m.from, m.shares) && EntryFresh(cs, log, m, d)
    requires Member(p.Collected(m.from, m.shares), cs)
    ensures OpenedOk(p.Collected(m.from, m.shares), cs, log + [m], d)
  {
    hide Cong, Eval, SealedBox.VerifySignature, SealedBox.Prepared, OpenedBox.SharedKey, RangeOf, LastIndex,
         CandidateOf;
    hide SumOver, Contributors, Opening, Extend, Distinct, PolyOf, TruePoint, Party.CollectEntryOk, Member, AllOpened;
    var q := p.Collected(m.from, m.shares);
    var (first, w) := p.Range(m.from).value;
    ContributorsStep(log, m, d);
    assert p.thresh == q.thresh == T(cs) by { MemberThresh(p, cs); }
    OpeningAt(p.openedShare, m.shares, p.thresh, first, d);
    SamePoly(p, q, cs, d);
    var list, a := p.OpenedList(d), Contributors(log, d);
    assert OpenedOk(p, cs, log, d);
    if d in m.shares {
      var values := m.shares[d];
      if values == [] || |list| >= T(cs) {
        EntryIdle(p, cs, log, m, d, list, values);
      } else {
        EntryOpens(p, cs, log, m, d, list, first, values);
      }
    } else {
      assert a + {} == a;
    }
  }

  /** An entry that adds nothing. */
  lemma EntryIdle(p: Party, cs: seq<Candidate>, log: seq<Message>, m: Message, d: Word, list: seq<Share>,
                  values: seq<Word>)
    requires CollectInv(p, cs, log) && p.CollectOk(m.from, m.shares)
    requires d in m.shares && values == m.shares[d] && list == p.OpenedList(d) && (values == [] || |list| >= T(cs))
    ensures var a := Contributors(log, d) + {m.from};
            && Extend(list, T(cs), p.Range(m.from).value.0, values) == list
            && |list| == Min(T(cs), SumOver(cs, a))
            && (SumOver(cs, a) < T(cs) ==> AllOpened(list, cs, a))
            && (list != [] ==>
                  && p.Range(d).Some? && (d == p.ident ==> p.box.Sufficient(p.thresh))
                  && forall i :: 0 <= i < |list| ==> TruePoint(list[i], PolyOf(p, cs, d), cs, a))
  {
    hide Cong, Eval, SealedBox.VerifySignature, SealedBox.Prepared, OpenedBox.SharedKey, RangeOf, LastIndex,
         CandidateOf;
    hide SumOver, Contributors, Distinct, PolyOf, Party.CollectEntryOk, Member, T;
    var a := Contributors(log, d);
    assert OpenedOk(p, cs, log, d);
    MemberRange(p, cs, m.from);
    SumOverMonotone(cs, a, a + {m.from});
    if m.from in a { assert a + {m.from} == a; } else { SumOverStep(cs, a, p, m.from); }
    forall i | 0 <= i < |list|
      ensures TruePoint(list[i], PolyOf(p, cs, d), cs, a + {m.from})
    {
      assert TruePoint(list[i], PolyOf(p, cs, d), cs, a);
      var e :| e in a && Covers(RangeOf(cs, e), list[i].x);
      assert e in a + {m.from};
    }
  }

  lemma MemberThresh(p: Party, cs: seq<Candidate>)
    requires Member(p, cs)
    ensures p.thresh == T(cs) && Roster(cs)
  {
  }

  lemma SamePoly(p: Party, q: Party, cs: seq<Candidate>, d: Word)
    requires Member(p, cs) && q == p.(openedShare := q.openedShare) && Member(q, cs)
    ensures p.Range(d) == q.Range(d)
    ensures p.Range(d).Some? && (d == p.ident ==> p.box.Sufficient(p.thresh)) ==> PolyOf(p, cs, d) == PolyOf(q, cs, d)
  {
  }

  /** An entry of a sender that has not contributed to the dealer before. */
  lemma EntryOpens(p: Party, cs: seq<Candidate>, log: seq<Message>, m: Message, d: Word,
                   list: seq<Share>, first: nat, values: seq<Word>)
    requires CollectInv(p, cs, log) && p.CollectOk(m.from, m.shares) && m.from !in Contributors(log, d)
    requires d in m.shares && values == m.shares[d] && p.Range(m.from).value.0 == first && list == p.OpenedList(d)
    requires values != []
    ensures var r, a := Extend(list, T(cs), first, values), Contributors(log, d) + {m.from};
            && |r| == Min(T(cs), SumOver(cs, a))
            && Distinct(Nodes(r))
            && (SumOver(cs, a) < T(cs) ==> AllOpened(r, cs, a))
            && p.Range(d).Some? && (d == p.ident ==> p.box.Sufficient(p.thresh))
            && forall i :: 0 <= i < |r| ==> TruePoint(r[i], PolyOf(p, cs, d), cs, a)
  {
    hide Cong, Eval, SealedBox.VerifySignature, SealedBox.Prepared, OpenedBox.SharedKey, RangeOf, LastIndex,
         CandidateOf;
    hide SumOver, Contributors, Extend, Distinct, PolyOf, TruePoint, Party.CollectEntryOk, Member, AllOpened;
    var a := Contributors(log, d);
    assert OpenedOk(p, cs, log, d);
    MemberThresh(p, cs);
    ThresholdMajority(cs);
    ExtendContents(list, T(cs), first, values);
    SumOverStep(cs, a, p, m.from);
    MemberRange(p, cs, m.from);
    EntryTrue(p, cs, first, d, values, 0);
    forall i | 0 <= i < |values|
      ensures Cong(values[i], Eval(PolyOf(p, cs, d), first + i))
    {
      EntryTrue(p, cs, first, d, values, i);
    }
    ExtendTrue(list, cs, PolyOf(p, cs, d), a, m.from, first, values);
    if SumOver(cs, a + {m.from}) < T(cs) { OpenedMore(list, cs, a, m.from, first, values); }
  }

  /** A stale entry opens an index a second time. */
  lemma EntryRepeats(p: Party, cs: seq<Candidate>, log: seq<Message>, m: Message, d: Word)
    requires CollectInv(p, cs, log) && p.CollectOk(m.from, m.shares) && !EntryFresh(cs, log, m, d)
    ensures !Distinct(Nodes(p.Collected(m.from, m.shares).OpenedList(d)))
  {
    hide SealedBox.VerifySignature, SealedBox.Prepared, OpenedBox.SharedKey, RangeOf, LastIndex, CandidateOf;
    hide SumOver, Contributors, Opening, Extend, PolyOf, TruePoint, Party.CollectEntryOk, Member;
    var (first, w) := p.Range(m.from).value;
    MemberThresh(p, cs);
    OpeningAt(p.openedShare, m.shares, p.thresh, first, d);
    var list, values := p.OpenedList(d), m.shares[d];
    assert OpenedOk(p, cs, log, d);
    MemberRange(p, cs, m.from);
    assert Covers(RangeOf(cs, m.from), first);
    assert first in Nodes(list);
    var i :| 0 <= i < |Nodes(list)| && Nodes(list)[i] == first;
    ExtendContents(list, T(cs), first, values);
    var r := Extend(list, T(cs), first, values);
    assert r[..|list|][i] == r[i] && Nodes(r)[i] == Nodes(r)[|list|];
  }

  // ----- runs

  /** A party after the messages have been collected in order; refused ones change nothing. */
  function CollectAll(p: Party, ms: seq<Message>): Party {
    if ms == [] then p else CollectAll(p, ms[..|ms|-1]).CollectStep(ms[|ms|-1].from, ms[|ms|-1].shares)
  }

  /** The messages of a run that were accepted. */
  function Accepted(p: Party, ms: seq<Message>): seq<Message> {
    if ms == [] then []
    else Accepted(p, ms[..|ms|-1]) +
         if CollectAll(p, ms[..|ms|-1]).CollectOk(ms[|ms|-1].from, ms[|ms|-1].shares) then [ms[|ms|-1]] else []
  }

  /** No message of the log opened an index twice: a condition on weights and senders alone. */
  ghost predicate NoRepeats(cs: seq<Candidate>, log: seq<Message>) {
    forall j :: 0 <= j < |log| ==> MessageFresh(cs, log[..j], log[j])
  }

  lemma NoRepeatsPrefix(cs: seq<Candidate>, log: seq<Message>, n: nat)
    requires n <= |log| && NoRepeats(cs, log)
    ensures NoRepeats(cs, log[..n])
  {
    hide MessageFresh;
    forall j | 0 <= j < n
      ensures MessageFresh(cs, log[..n][..j], log[..n][j])
    {
      assert log[..n][..j] == log[..j];
    }
  }

  lemma NoRepeatsStep(cs: seq<Candidate>, log: seq<Message>, m: Message)
    ensures NoRepeats(cs, log + [m]) <==> NoRepeats(cs, log) && MessageFresh(cs, log, m)
  {
    hide MessageFresh;
    var now := log + [m];
    assert now[..|log|] == log && now[|log|] == m;
    if NoRepeats(cs, now) { NoRepeatsPrefix(cs, now, |log|); }
    if NoRepeats(cs, log) && MessageFresh(cs, log, m) {
      forall j | 0 <= j < |now|
        ensures MessageFresh(cs, now[..j], now[j])
      {
        if j < |log| { assert now[..j] == log[..j]; }
      }
    }
  }

  /** Senders that are collected once each repeat nothing. */
  lemma OnceEach(cs: seq<Candidate>, log: seq<Message>)
    requires forall i, j :: 0 <= i < j < |log| ==> log[i].from != log[j].from
    ensures NoRepeats(cs, log)
  {
    hide SumOver, T;
    forall j, d | 0 <= j < |log|
      ensures EntryFresh(cs, log[..j], log[j], d)
    {
      assert log[j].from !in Senders(log[..j]);
    }
  }

  lemma CollectStepInv(p: Party, cs: seq<Candidate>, log: seq<Message>, m: Message)
    requires CollectInv(p, cs, log) && p.CollectOk(m.from, m.shares) && MessageFresh(cs, log, m)
    ensures CollectInv(p.Collected(m.from, m.shares), cs, log + [m])
  {
    hide Member, OpenedOk, EntryFresh;
    CollectKeepsMember(p, cs, m.from, m.shares);
    forall d
      ensures OpenedOk(p.Collected(m.from, m.shares), cs, log + [m], d)
    {
      OpenedStep(p, cs, log, m, d);
    }
  }

  lemma InvDistinct(p: Party, cs: seq<Candidate>, log: seq<Message>)
    requires CollectInv(p, cs, log)
    ensures AllDistinct(p)
  {
    hide Distinct, Member, SumOver, T;
    forall d
      ensures Distinct(Nodes(p.OpenedList(d)))
    {
      assert OpenedOk(p, cs, log, d);
    }
  }

  /** Collection never looks for a repeated sender. An accepted message keeps all interpolation indices
      distinct if and only if every entry for an unfilled list is of a sender new to that list. */
  lemma StepDistinct(p: Party, cs: seq<Candidate>, log: seq<Message>, m: Message)
    requires CollectInv(p, cs, log) && p.CollectOk(m.from, m.shares)
    ensures AllDistinct(p.Collected(m.from, m.shares)) <==>
              forall d :: d in m.shares ==>
                m.shares[d] == [] || |p.OpenedList(d)| >= T(cs) || m.from !in Contributors(log, d)
    ensures AllDistinct(p.Collected(m.from, m.shares)) <==> MessageFresh(cs, log, m)
  {
    hide Distinct, Member, SumOver, T, Contributors, Party.CollectOk, Party.Collected, Opening;
    forall d
      ensures |p.OpenedList(d)| == Min(T(cs), SumOver(cs, Contributors(log, d)))
      ensures !EntryFresh(cs, log, m, d) ==> !Distinct(Nodes(p.Collected(m.from, m.shares).OpenedList(d)))
    {
      assert OpenedOk(p, cs, log, d);
      if !EntryFresh(cs, log, m, d) { EntryRepeats(p, cs, log, m, d); }
    }
    if MessageFresh(cs, log, m) {
      CollectStepInv(p, cs, log, m);
      InvDistinct(p.Collected(m.from, m.shares), cs, log + [m]);
    }
  }

  /** Lists only grow, so a repeated index stays. */
  lemma DistinctBefore(p: Party, m: Message)
    requires AllDistinct(p.Collected(m.from, m.shares))
    ensures AllDistinct(p)
  {
    hide Extend, Opening;
    if p.Range(m.from).Some? {
      var q, first := p.Collected(m.from, m.shares), p.Range(m.from).value.0;
      forall d
        ensures Distinct(Nodes(p.OpenedList(d)))
      {
        OpeningAt(p.openedShare, m.shares, p.thresh, first, d);
        var list, now := p.OpenedList(d), q.OpenedList(d);
        assert Distinct(Nodes(now));
        if d in m.shares { ExtendContents(list, p.thresh, first, m.shares[d]); }
        assert forall i :: 0 <= i < |list| ==> Nodes(now)[i] == now[..|list|][i].x == Nodes(list)[i];
      }
    }
  }

  /** After any run of messages, refused ones included: the interpolation indices are all distinct if and only
      if no accepted message repeated, and then every opened list is exactly what the accepted messages make it. */
  lemma {:induction false} CollectRun(p: Party, cs: seq<Candidate>, ms: seq<Message>)
    requires Member(p, cs) && p.openedShare == map[]
    ensures AllDistinct(CollectAll(p, ms)) <==> NoRepeats(cs, Accepted(p, ms))
    ensures NoRepeats(cs, Accepted(p, ms)) ==> CollectInv(CollectAll(p, ms), cs, Accepted(p, ms))
  {
    hide Member, OpenedOk, NoRepeats, MessageFresh, AllDistinct, CollectInv;
    if ms == [] {
      NothingCollected(p, cs);
      InvDistinct(p, cs, []);
    } else {
      var before, m := ms[..|ms|-1], ms[|ms|-1];
      var log, q := Accepted(p, before), CollectAll(p, before);
      CollectRun(p, cs, before);
      if q.CollectOk(m.from, m.shares) {
        NoRepeatsStep(cs, log, m);
        if NoRepeats(cs, log) {
          StepDistinct(q, cs, log, m);
          if MessageFresh(cs, log, m) { CollectStepInv(q, cs, log, m); }
        } else if AllDistinct(CollectAll(p, ms)) {
          DistinctBefore(q, m);
        }
      } else {
        assert Accepted(p, ms) == log + [] == log;
      }
    }
  }

  lemma NothingCollected(p: Party, cs: seq<Candidate>)
    requires Member(p, cs) && p.openedShare == map[]
    ensures CollectInv(p, cs, []) && NoRepeats(cs, [])
  {
    hide Member, OpenedOk;
    forall d
      ensures OpenedOk(p, cs, [], d)
    {
      OpenedNothing(p, cs, d);
    }
  }

  lemma OpenedNothing(p: Party, cs: seq<Candidate>, d: Word)
    requires Member(p, cs) && p.openedShare == map[]
    ensures OpenedOk(p, cs, [], d)
  {
    hide Member;
    assert Contributors([], d) == {};
    SumOverNone(cs);
  }

  lemma {:induction false} SumOverNone(cs: seq<Candidate>)
    ensures SumOver(cs, {}) == 0
  {
    if cs != [] { SumOverNone(cs[..|cs|-1]); }
  }

  // ----- reconstruction

  lemma InvInBounds(p: Party, cs: seq<Candidate>, log: seq<Message>)
    requires CollectInv(p, cs, log)
    ensures p.InBounds()
  {
    hide SealedBox.VerifySignature, SealedBox.Prepared, OpenedBox.SharedKey, RangeOf, LastIndex, CandidateOf, PolyOf;
    forall k | k in p.participants
      ensures 1 <= p.participants[k].index && p.participants[k].index + p.participants[k].weight <= POW_TABLE_ROWS + 1
    {
      MemberRange(p, cs, k);
    }
    MemberRange(p, cs, p.ident);
    forall d | d in p.openedShare
      ensures SharesInTable(p.openedShare[d])
    {
      assert OpenedOk(p, cs, log, d);
    }
  }

  /** A party recovers exactly the dealers for which senders of threshold weight contributed, and
      the secret it recovers is the constant term the dealer is bound to. */
  lemma ReconstructExact(p: Party, cs: seq<Candidate>, log: seq<Message>, d: Word)
    requires CollectInv(p, cs, log)
    ensures p.InBounds()
    ensures d in p.Reconstructed() <==>
              p.Range(d).Some? && p.Range(d).value.1 > 0 && SumOver(cs, Contributors(log, d)) >= T(cs)
    ensures d in p.Reconstructed() ==>
              && (d == p.ident ==> p.box.Sufficient(p.thresh)) && PolyOf(p, cs, d) != []
              && p.Reconstructed()[d] == (Reduce(PolyOf(p, cs, d)[0]), p.Range(d).value.1)
  {
    hide Cong, Eval, Reduce, SealedBox.VerifySignature, SealedBox.Prepared, OpenedBox.SharedKey, RangeOf, LastIndex,
         CandidateOf,
         SumOver, Contributors, Member, PolyOf, Distinct, NewtonAtZero, LagrangeAtZero;
    InvInBounds(p, cs, log);
    MemberThresh(p, cs);
    ThresholdMajority(cs);
    assert OpenedOk(p, cs, log, d);
    var list := p.OpenedList(d);
    if p.Range(d).Some? && p.Range(d).value.1 > 0 && |list| == T(cs) {
      var f := PolyOf(p, cs, d);
      PolyLength(p, cs, d);
      SharesInTableNodes(list);
      InterpolationExact(f, list);
      EvalZero(f);
    }
  }

  lemma PolyLength(p: Party, cs: seq<Candidate>, d: Word)
    requires Member(p, cs) && p.Range(d).Some?
    requires d == p.ident ==> p.box.Sufficient(p.thresh)
    ensures |PolyOf(p, cs, d)| == T(cs)
  {
    hide SealedBox.VerifySignature, SealedBox.Prepared, OpenedBox.SharedKey, RangeOf, LastIndex, CandidateOf;
  }

  lemma EvalZero(f: Poly)
    requires f != []
    ensures Eval(f, 0) == f[0]
  {
    assert 0 * Eval(f[1..], 0) == 0;
  }
}

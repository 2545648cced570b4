/** One party of the verifiable secret sharing protocol: what each operation does to its state. */
module SecretShare {
  import opened Words
  import opened Boxes
  import opened Interpolation

  /** Shares indexed by dealer. */
  type ShareMap = map<Word, seq<Word>>

  datatype Candidate = Candidate(ident: Word, weight: nat, sBox: SealedBox) {
    predicate Verify() { sBox.VerifySignature(ident) }
  }

  datatype Participant = Participant(
    weight: nat, index: nat, sBox: SealedBox, sharedKey: Word, shares: seq<Word>)
  {
    function Encrypt(data: Word): Word { Xor(sharedKey, data) }

    function Decrypt(cipher: Word): Word { Xor(sharedKey, cipher) }

    function DecryptAll(ciphers: seq<Word>): (r: seq<Word>)
      ensures |r| == |ciphers|
    {
      seq(|ciphers|, i requires 0 <= i < |ciphers| => Decrypt(ciphers[i]))
    }

    /** Every value is the committed one at its index. */
    predicate VerifyShare(first: nat, values: seq<Word>) {
      forall i :: 0 <= i < |values| ==> sBox.VerifyPolynomial(first + i, values[i])
    }

    /** Accepting keeps the decrypted shares if all verify and drops any earlier ones if not. */
    function Accepting(first: nat, ciphers: seq<Word>): Participant {
      var values := DecryptAll(ciphers);
      this.(shares := if VerifyShare(first, values) then values else [])
    }
  }

  method AcceptShare(p: Participant, first: nat, ciphers: seq<Word>) returns (r: Participant, ok: bool)
    ensures r == p.Accepting(first, ciphers)
    ensures ok == p.VerifyShare(first, p.DecryptAll(ciphers))
    ensures ok ==>
              |r.shares| == |ciphers| && forall i :: 0 <= i < |ciphers| ==> r.shares[i] == Xor(p.sharedKey, ciphers[i])
    ensures !ok ==> r.shares == []
  {
    ghost var values := p.DecryptAll(ciphers);
    var shares: seq<Word> := [];
    for i := 0 to |ciphers|
      invariant shares == values[..i]
      invariant p.VerifyShare(first, values[..i])
    {
      var v := p.Decrypt(ciphers[i]);
      shares := shares + [v];
      assert values[..i+1] == values[..i] + [v];
      if !p.sBox.VerifyPolynomial(first + i, v) {
        assert values[i] == v;
        return p.(shares := []), false;
      }
    }
    assert values[..|ciphers|] == values;
    return p.(shares := shares), true;
  }

  /** The value of one party object. */
  datatype Party = Party(
    ident: Word, box: OpenedBox, weight: nat, index: nat, thresh: nat,
    participants: map<Word, Participant>, openedShare: map<Word, seq<Share>>)
  {
    /** First index and number of shares of a party. */
    function Range(d: Word): Option<(nat, nat)> {
      if d == ident then Some((index, weight))
      else if d in participants then Some((participants[d].index, participants[d].weight))
      else None
    }

    /** All share indices stay inside the tables. */
    ghost predicate InBounds() {
      && thresh <= POW_TABLE_COLUMNS
      && (weight > 0 ==> 1 <= index && index + weight <= POW_TABLE_ROWS + 1)
      && (forall k :: k in participants ==>
            1 <= participants[k].index && participants[k].index + participants[k].weight <= POW_TABLE_ROWS + 1)
      && forall d :: d in openedShare ==> SharesInTable(openedShare[d])
    }

    // ----- distribution

    /** The shares this dealer sends to one participant; none if its box cannot be evaluated. */
    function SharesFor(q: Participant): (r: seq<Word>) {
      if box.Sufficient(thresh)
      then seq<Word>(q.weight, i requires 0 <= i < q.weight => q.Encrypt(box.At(thresh, q.index + i)))
      else []
    }

    function Distributed(): ShareMap {
      map k | k in participants :: SharesFor(participants[k])
    }

    // ----- acceptance

    predicate AcceptOk(from: Word, ciphers: seq<Word>) {
      && |ciphers| == weight
      && from in participants
      && participants[from].VerifyShare(index, participants[from].DecryptAll(ciphers))
    }

    function Accepting(from: Word, ciphers: seq<Word>): Party {
      if |ciphers| == weight && from in participants
      then this.(participants := participants[from := participants[from].Accepting(index, ciphers)])
      else this
    }

    // ----- publication

    function OwnShare(i: nat): Word
      requires box.Sufficient(thresh)
    {
      box.At(thresh, index + i)
    }

    function OwnShares(): seq<Word>
      requires weight > 0 ==> box.Sufficient(thresh)
    {
      seq(weight, i requires 0 <= i < weight => OwnShare(i))
    }

    /** Every share held, and this party's own; publication throws if the own box cannot be evaluated. */
    function Published(): Option<ShareMap> {
      if weight > 0 && !box.Sufficient(thresh) then None
      else
        var held := map k | k in participants && participants[k].shares != [] :: participants[k].shares;
        Some(held[ident := OwnShares()])
    }

    // ----- collection

    predicate CollectEntryOk(first: nat, d: Word, values: seq<Word>) {
      if d == ident
      then forall i :: 0 <= i < |values| ==> box.Value(thresh, first + i) == Some(values[i])
      else d in participants && participants[d].VerifyShare(first, values)
    }

    /** The message is accepted; a message that makes evaluation throw is not. */
    predicate CollectOk(from: Word, m: ShareMap) {
      match Range(from)
      case None => false
      case Some((first, w)) => forall d :: d in m ==> |m[d]| == w && CollectEntryOk(first, d, m[d])
    }

    function OpenedList(d: Word): seq<Share> { Listed(openedShare, d) }

    function Collected(from: Word, m: ShareMap): Party {
      match Range(from)
      case None => this
      case Some((first, w)) =>
        this.(openedShare := Opening(openedShare, m, m.Keys, thresh, first))
    }

    function CollectStep(from: Word, m: ShareMap): Party {
      if CollectOk(from, m) then Collected(from, m) else this
    }

    // ----- reconstruction

    /** The dealers whose secret is recovered. */
    ghost predicate Recovers(d: Word) {
      d in openedShare && |openedShare[d]| == thresh && Range(d).Some? && Range(d).value.1 > 0
    }

    ghost function Reconstructed(): map<Word, (Word, nat)>
      requires InBounds()
    {
      map d | d in openedShare && Recovers(d) :: (SecretOf(d), Range(d).value.1)
    }

    ghost function SecretOf(d: Word): Word
      requires InBounds() && d in openedShare
    {
      SharesInTableNodes(openedShare[d]);
      NewtonAtZero(openedShare[d])
    }
  }

  ghost predicate SharesInTable(shares: seq<Share>) {
    forall i :: 0 <= i < |shares| ==> 1 <= shares[i].x <= POW_TABLE_ROWS
  }

  lemma SharesInTableNodes(shares: seq<Share>)
    requires SharesInTable(shares)
    ensures InTable(Nodes(shares))
  {
  }

  /** Append shares first, first + 1, ... until the list holds thresh of them. */
  function Extend(list: seq<Share>, thresh: nat, first: nat, values: seq<Word>): seq<Share>
    decreases |values|
  {
    if values == [] || |list| >= thresh then list
    else Extend(list + [Share(first, values[0])], thresh, first + 1, values[1..])
  }

  lemma {:induction false} ExtendContents(list: seq<Share>, thresh: nat, first: nat, values: seq<Word>)
    ensures var r, n := Extend(list, thresh, first, values), |list|;
            && |r| == (if n >= thresh then n else if n + |values| < thresh then n + |values| else thresh)
            && list == r[..n]
            && forall i :: n <= i < |r| ==> r[i] == Share(first + (i - n), values[i - n])
    decreases |values|
  {
    if values != [] && |list| < thresh {
      ExtendContents(list + [Share(first, values[0])], thresh, first + 1, values[1..]);
      var r, n := Extend(list, thresh, first, values), |list|;
      assert r[..n] == r[..n+1][..n];
      forall i | n <= i < |r|
        ensures r[i] == Share(first + (i - n), values[i - n])
      {
        if i == n { assert r[n] == r[..n+1][n]; }
      }
    }
  }

  function Listed(m: map<Word, seq<Share>>, d: Word): seq<Share> { if d in m then m[d] else [] }

  method ExtendList(list: seq<Share>, thresh: nat, first: nat, values: seq<Word>) returns (r: seq<Share>)
    ensures r == Extend(list, thresh, first, values)
  {
    r := list;
    var i := 0;
    while i < |values| && |r| < thresh
      invariant 0 <= i <= |values|
      invariant Extend(list, thresh, first, values) == Extend(r, thresh, first + i, values[i..])
    {
      assert values[i..][1..] == values[i+1..];
      r := r + [Share(first + i, values[i])];
      i := i + 1;
    }
  }

  /** The opened lists after the entries of the dealers ds have been appended. */
  function Opening(was: map<Word, seq<Share>>, m: ShareMap, ds: set<Word>, thresh: nat, first: nat)
    : map<Word, seq<Share>>
    requires ds <= m.Keys
  {
    was + map d | d in ds :: Extend(Listed(was, d), thresh, first, m[d])
  }

  predicate Filled(lists: map<Word, seq<Share>>, ds: set<Word>, thresh: nat) {
    forall d :: d in ds ==> |Listed(lists, d)| == thresh
  }

  lemma OpeningNone(was: map<Word, seq<Share>>, m: ShareMap, thresh: nat, first: nat)
    ensures Opening(was, m, m.Keys - m.Keys, thresh, first) == was
    ensures Filled(was, m.Keys - m.Keys, thresh)
  {
    hide Extend;
    assert m.Keys - m.Keys == {};
  }

  lemma OpeningStep(was: map<Word, seq<Share>>, m: ShareMap, ds: set<Word>, d: Word, thresh: nat, first: nat)
    requires ds <= m.Keys && d in m && d !in ds
    ensures ds + {d} <= m.Keys
    ensures var now, list := Opening(was, m, ds, thresh, first), Extend(Listed(was, d), thresh, first, m[d]);
            Listed(now, d) == Listed(was, d) && Opening(was, m, ds + {d}, thresh, first) == now[d := list]
  {
    hide Extend;
    var now, list := Opening(was, m, ds, thresh, first), Extend(Listed(was, d), thresh, first, m[d]);
    var next := Opening(was, m, ds + {d}, thresh, first);
    assert next.Keys == now[d := list].Keys;
    forall k | k in next
      ensures next[k] == now[d := list][k]
    {
    }
  }

  lemma FilledStep(now: map<Word, seq<Share>>, ds: set<Word>, d: Word, list: seq<Share>, thresh: nat)
    requires d !in ds
    ensures Filled(now[d := list], ds + {d}, thresh) <==> Filled(now, ds, thresh) && |list| == thresh
  {
    assert Listed(now[d := list], d) == list;
    assert forall k :: k in ds ==> Listed(now[d := list], k) == Listed(now, k);
  }

  lemma CollectInBounds(p: Party, from: Word, m: ShareMap)
    requires p.InBounds()
    ensures p.CollectStep(from, m).InBounds()
  {
    hide Extend, Party.CollectEntryOk;
    if p.CollectOk(from, m) {
      var (first, w) := p.Range(from).value;
      var q := p.Collected(from, m);
      forall d | d in q.openedShare
        ensures SharesInTable(q.openedShare[d])
      {
        if d in m {
          var list := p.OpenedList(d);
          ExtendContents(list, p.thresh, first, m[d]);
          var r := q.openedShare[d];
          assert r == Extend(list, p.thresh, first, m[d]);
          forall i | 0 <= i < |r|
            ensures 1 <= r[i].x <= POW_TABLE_ROWS
          {
            if i < |list| { assert r[i] == r[..|list|][i]; }
          }
        }
      }
    }
  }

  // ----- enrolment

  datatype Roll = Roll(party: Party, lastIndex: nat)

  function EnrollOne(r: Roll, c: Candidate): Roll {
    var p := r.party;
    if c.ident == p.ident then
      Roll(p.(index := r.lastIndex, weight := c.weight), r.lastIndex + c.weight)
    else if c.ident !in p.participants && c.Verify() then
      var q := Participant(c.weight, r.lastIndex, c.sBox, p.box.SharedKey(c.sBox.pubKey), []);
      Roll(p.(participants := p.participants[c.ident := q]), r.lastIndex + c.weight)
    else
      r
  }

  function EnrollAll(p: Party, cs: seq<Candidate>): Roll {
    if cs == [] then Roll(p, 1) else EnrollOne(EnrollAll(p, cs[..|cs|-1]), cs[|cs|-1])
  }

  lemma {:induction false} EnrollKeepsIdent(p: Party, cs: seq<Candidate>)
    ensures EnrollAll(p, cs).party.ident == p.ident
  {
    if cs != [] { EnrollKeepsIdent(p, cs[..|cs|-1]); }
  }

  /** A repeated identity: of the others the first verified candidate stays, of the party itself the last one
      counts, whether or not its box verifies. */
  lemma RepeatedCandidate(p: Party, cs: seq<Candidate>, c: Candidate)
    ensures var r, now := EnrollAll(p, cs), EnrollAll(p, cs + [c]);
            && (c.ident == p.ident ==>
                  && now.party == r.party.(index := r.lastIndex, weight := c.weight)
                  && now.lastIndex == r.lastIndex + c.weight)
            && (c.ident != p.ident && c.ident in r.party.participants ==> now == r)
  {
    hide SealedBox.VerifySignature;
    assert (cs + [c])[..|cs|] == cs;
    EnrollKeepsIdent(p, cs);
  }

  /** Strictly more than half of the total weight. */
  function Threshold(lastIndex: nat): nat
    requires lastIndex >= 1
  {
    (lastIndex - 1) / 2 + 1
  }

  /** Every participant's box can be prepared; the source indexes the coefficients unchecked. */
  ghost predicate Preparable(participants: map<Word, Participant>, thresh: nat) {
    forall k :: k in participants ==> thresh <= |participants[k].sBox.encryptedCoeff| && participants[k].sBox.Unpacks()
  }

  /** What enrolment needs: indices inside the tables, and enough coefficients in every box. */
  ghost predicate EnrollSafe(p: Party, cs: seq<Candidate>) {
    var r := EnrollAll(p, cs);
    && 1 <= r.lastIndex <= POW_TABLE_ROWS + 1
    && Preparable(r.party.participants, Threshold(r.lastIndex))
  }

  function PrepareAll(participants: map<Word, Participant>, thresh: nat, lastIndex: nat): map<Word, Participant>
    requires Preparable(participants, thresh)
  {
    map k | k in participants :: participants[k].(sBox := participants[k].sBox.Prepared(thresh, lastIndex))
  }

  function Enrolled(p: Party, cs: seq<Candidate>): Party
    requires EnrollSafe(p, cs)
  {
    var r := EnrollAll(p, cs);
    var t := Threshold(r.lastIndex);
    r.party.(thresh := t, participants := PrepareAll(r.party.participants, t, r.lastIndex))
  }

  /** One entry of a distribution. */
  lemma DistributedAt(p: Party, k: Word)
    requires k in p.participants
    ensures k in p.Distributed()
    ensures var q, dealt := p.participants[k], p.Distributed()[k];
            && |dealt| == (if p.box.Sufficient(p.thresh) then q.weight else 0)
            && forall i :: 0 <= i < |dealt| ==>
                 p.box.Sufficient(p.thresh) && dealt[i] == Xor(q.sharedKey, p.box.At(p.thresh, q.index + i))
  {
    hide OpenedBox.At, Xor;
    var q := p.participants[k];
    assert p.Distributed()[k] == p.SharesFor(q);
    if p.box.Sufficient(p.thresh) {
      forall i | 0 <= i < q.weight
        ensures p.SharesFor(q)[i] == Xor(q.sharedKey, p.box.At(p.thresh, q.index + i))
      {
        assert p.SharesFor(q)[i] == q.Encrypt(p.box.At(p.thresh, q.index + i));
      }
    }
  }

  // ----- the party object

  /** What one round of the redraw loop draws. */
  datatype Draw = Draw(box: OpenedBox, nonce: Word) {
    predicate Usable() { box.Validate() && nonce != 0 }
  }

  ghost predicate FirstUsable(draws: seq<Draw>, k: int) {
    0 <= k < |draws| && draws[k].Usable() && forall j :: 0 <= j < k ==> !draws[j].Usable()
  }

  class CMPSecretShare {
    var ident: Word
    var myBox: OpenedBox
    var weight: nat
    var index: nat
    var thresh: nat
    var participants: map<Word, Participant>
    var openedShare: map<Word, seq<Share>>

    function View(): Party
      reads this
    {
      Party(ident, myBox, weight, index, thresh, participants, openedShare)
    }

    constructor (ident: Word)
      ensures View() == Party(ident, OpenedBox([], 0), 0, 0, 0, map[], map[])
    {
      this.ident := ident;
      myBox := OpenedBox([], 0);
      weight, index, thresh := 0, 0, 0;
      participants := map[];
      openedShare := map[];
    }

    /** Draw until a box can be sealed, then start over with it; None if no draw of these was usable and the loop is
        still going. */
    method Setup(draws: seq<Draw>) returns (sealed: Option<SealedBox>)
      modifies this
      ensures ident == old(ident)
      ensures (forall j :: 0 <= j < |draws| ==> !draws[j].Usable()) ==> sealed == None
      ensures forall k :: FirstUsable(draws, k) ==>
                && sealed == Some(Sealed(draws[k].box, ident, draws[k].nonce))
                && View() == Party(ident, draws[k].box, 0, 0, 0, map[], map[])
    {
      sealed := None;
      for i := 0 to |draws|
        invariant sealed == None && ident == old(ident)
        invariant forall j :: 0 <= j < i ==> !draws[j].Usable()
      {
        myBox := draws[i].box;
        sealed := MakeSealedBox(myBox, ident, draws[i].nonce);
        if sealed.Some? {
          weight, index, thresh := 0, 0, 0;
          participants := map[];
          openedShare := map[];
          return;
        }
      }
    }

    method SetupWitness()
      modifies this
      ensures View() == Party(0, OpenedBox([], old(myBox.privKey)), 0, 0, 0, map[], map[])
    {
      myBox := myBox.(coeff := []);
      ident := 0;
      weight, index, thresh := 0, 0, 0;
      participants := map[];
      openedShare := map[];
    }

    method Enroll(cs: seq<Candidate>)
      requires EnrollSafe(View(), cs)
      modifies this
      ensures View() == Enrolled(old(View()), cs)
    {
      hide SealedBox.Prepared, SealedBox.VerifySignature, OpenedBox.SharedKey;
      ghost var p := View();
      var lastIndex: nat := 1;
      for i := 0 to |cs|
        invariant Roll(View(), lastIndex) == EnrollAll(p, cs[..i])
      {
        var c := cs[i];
        assert cs[..i+1][..i] == cs[..i];
        if c.ident == ident {
          index := lastIndex;
          weight := c.weight;
          lastIndex := lastIndex + c.weight;
        } else if c.ident !in participants && c.Verify() {
          var shared := myBox.SharedKey(c.sBox.pubKey);
          participants := participants[c.ident := Participant(c.weight, lastIndex, c.sBox, shared, [])];
          lastIndex := lastIndex + c.weight;
        }
      }
      assert cs[..|cs|] == cs;
      thresh := (lastIndex - 1) / 2 + 1;

      PrepareParticipants(lastIndex);
    }

    /** The commitment tables, one task per participant. */
    method PrepareParticipants(lastIndex: nat)
      requires 1 <= thresh <= POW_TABLE_COLUMNS + 1 && lastIndex <= POW_TABLE_ROWS + 1
      requires Preparable(participants, thresh)
      modifies this`participants
      ensures participants == PrepareAll(old(participants), thresh, lastIndex)
    {
      hide SealedBox.Prepared;
      ghost var before := participants;
      var keys := participants.Keys;
      var prepared: map<Word, Participant> := map[];
      while keys != {}
        invariant participants == before
        invariant keys + prepared.Keys == before.Keys && keys !! prepared.Keys
        invariant forall k :: k in prepared ==>
          prepared[k] == before[k].(sBox := before[k].sBox.Prepared(thresh, lastIndex))
        decreases keys
      {
        var k :| k in keys;
        var box := PrecalcPolynomial(participants[k].sBox, thresh, lastIndex);
        prepared := prepared[k := participants[k].(sBox := box)];
        keys := keys - {k};
      }
      participants := prepared;
    }

    method Distribute() returns (shares: ShareMap)
      requires View().InBounds()
      ensures shares == View().Distributed() && shares.Keys == participants.Keys
      ensures forall k :: k in participants ==>
                |shares[k]| == if myBox.Sufficient(thresh) then participants[k].weight else 0
      ensures forall k, i :: k in participants && 0 <= i < |shares[k]| ==>
                && myBox.Sufficient(thresh)
                && shares[k][i] == Xor(participants[k].sharedKey, myBox.At(thresh, participants[k].index + i))
    {
      hide OpenedBox.At, Xor;
      var keys := participants.Keys;
      shares := map[];
      while keys != {}
        invariant keys + shares.Keys == participants.Keys && keys !! shares.Keys
        invariant forall k :: k in shares ==> shares[k] == View().SharesFor(participants[k])
        decreases keys
      {
        var k :| k in keys;
        var q := participants[k];
        var list: seq<Word> := [];
        for i := 0 to q.weight
          invariant myBox.Sufficient(thresh) ==> list == View().SharesFor(q)[..i]
          invariant !myBox.Sufficient(thresh) ==> list == []
        {
          var v := Polynomial(myBox, thresh, q.index + i);
          if v.None? {
            // the worker's exception leaves the list empty
            break;
          }
          list := list + [q.Encrypt(v.value)];
        }
        shares := shares[k := list];
        keys := keys - {k};
      }
      forall k | k in participants
        ensures |shares[k]| == if myBox.Sufficient(thresh) then participants[k].weight else 0
        ensures forall i :: 0 <= i < |shares[k]| ==>
                  && myBox.Sufficient(thresh)
                  && shares[k][i] == Xor(participants[k].sharedKey, myBox.At(thresh, participants[k].index + i))
      {
        DistributedAt(View(), k);
      }
    }

    method Accept(from: Word, ciphers: seq<Word>) returns (ok: bool)
      modifies this
      ensures ok == old(View()).AcceptOk(from, ciphers)
      ensures View() == old(View()).Accepting(from, ciphers)
    {
      ok := false;
      if |ciphers| == weight && from in participants {
        var q;
        q, ok := AcceptShare(participants[from], index, ciphers);
        participants := participants[from := q];
      }
    }

    method Publish() returns (m: Option<ShareMap>)
      requires View().InBounds()
      ensures m == View().Published()
    {
      var keys := participants.Keys;
      var shares: ShareMap := map[];
      while keys != {}
        invariant keys <= participants.Keys
        invariant shares
                  == map k | k in participants.Keys - keys && participants[k].shares != [] :: participants[k].shares
        decreases keys
      {
        var k :| k in keys;
        if participants[k].shares != [] {
          shares := shares[k := participants[k].shares];
        }
        keys := keys - {k};
      }
      var own: seq<Word> := [];
      for i := 0 to weight
        invariant i > 0 ==> myBox.Sufficient(thresh)
        invariant |own| == i
        invariant forall j :: 0 <= j < i ==> Some(own[j]) == myBox.Value(thresh, index + j)
      {
        var v := Polynomial(myBox, thresh, index + i);
        if v.None? {
          return None;
        }
        own := own + [v.value];
      }
      assert participants.Keys - {} == participants.Keys;
      assert own == View().OwnShares();
      m := Some(shares[ident := own]);
    }

    /** All checks come before the first write, so a refused message changes nothing. */
    method Collect(from: Word, m: ShareMap) returns (ok: bool, completed: bool)
      requires View().InBounds()
      modifies this
      ensures View().InBounds()
      ensures ok == old(View()).CollectOk(from, m)
      ensures View() == old(View()).CollectStep(from, m)
      ensures completed == (ok && forall d :: d in m ==> |View().OpenedList(d)| == thresh)
    {
      hide Opening, Party.InBounds;
      ghost var p := View();
      CollectInBounds(p, from, m);
      var range := View().Range(from);
      if range.None? {
        return false, false;
      }
      var (first, w) := range.value;
      ok := CheckMessage(from, m);
      if !ok {
        return false, false;
      }
      completed := OpenShares(first, m);
    }

    method OpenShares(first: nat, m: ShareMap) returns (completed: bool)
      modifies this`openedShare
      ensures openedShare == Opening(old(openedShare), m, m.Keys, thresh, first)
      ensures completed == Filled(openedShare, m.Keys, thresh)
    {
      hide Opening, Filled, Extend;
      ghost var was := openedShare;
      var keys, done := m.Keys, 0;
      OpeningNone(was, m, thresh, first);
      while keys != {}
        invariant keys <= m.Keys && done + |keys| <= |m|
        invariant openedShare == Opening(was, m, m.Keys - keys, thresh, first)
        invariant done == |m| - |keys| <==> Filled(openedShare, m.Keys - keys, thresh)
        decreases keys
      {
        var d :| d in keys;
        OpeningStep(was, m, m.Keys - keys, d, thresh, first);
        var list := if d in openedShare then openedShare[d] else [];
        list := ExtendList(list, thresh, first, m[d]);
        FilledStep(openedShare, m.Keys - keys, d, list, thresh);
        openedShare := openedShare[d := list];
        if |list| == thresh {
          done := done + 1;
        }
        assert m.Keys - (keys - {d}) == (m.Keys - keys) + {d};
        keys := keys - {d};
      }
      completed := done >= |m|;
      assert m.Keys - {} == m.Keys;
    }

    method CheckMessage(from: Word, m: ShareMap) returns (ok: bool)
      requires View().InBounds() && View().Range(from).Some?
      ensures ok == View().CollectOk(from, m)
    {
      var (first, w) := View().Range(from).value;
      var keys := m.Keys;
      while keys != {}
        invariant keys <= m.Keys
        invariant forall d :: d in m.Keys - keys ==> |m[d]| == w && View().CollectEntryOk(first, d, m[d])
        decreases keys
      {
        var d :| d in keys;
        if |m[d]| != w {
          return false;
        }
        if d == ident {
          for i := 0 to |m[d]|
            invariant forall j :: 0 <= j < i ==> myBox.Value(thresh, first + j) == Some(m[d][j])
          {
            var v := Polynomial(myBox, thresh, first + i);
            if v != Some(m[d][i]) {
              return false;
            }
          }
        } else {
          if d !in participants || !participants[d].VerifyShare(first, m[d]) {
            return false;
          }
        }
        keys := keys - {d};
      }
      return true;
    }

    method Reconstruct() returns (secrets: map<Word, (Word, nat)>)
      requires View().InBounds()
      ensures secrets == View().Reconstructed()
    {
      hide NewtonAtZero, LagrangeAtZero, Distinct, InTable, Nodes;
      var keys := openedShare.Keys;
      secrets := map[];
      while keys != {}
        invariant keys <= openedShare.Keys
        invariant secrets == map d | d in openedShare.Keys - keys && View().Recovers(d)
                               :: (View().SecretOf(d), View().Range(d).value.1)
        decreases keys
      {
        var d :| d in keys;
        var list := openedShare[d];
        var range := View().Range(d);
        if |list| == thresh && range.Some? {
          SharesInTableNodes(list);
          var v := MPNewton(list);
          if range.value.1 > 0 {
            secrets := secrets[d := (v, range.value.1)];
          }
        }
        keys := keys - {d};
      }
    }
  }
}

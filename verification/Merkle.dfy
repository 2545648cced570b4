/** The Merkle tree of a block: built flat, meant as a recursion, and binding once duplicates are refused. */
module Merkle {
  import opened Words

  /** The hash of two words: nothing is known about it. */
  const HASH: (Word, Word) -> Word

  // ----- the recursion

  /** The pairs hashed over one level; the last element is paired with itself if left over. */
  function Pairing(s: seq<Word>): (r: seq<(Word, Word)>)
    ensures |r| == (|s| + 1) / 2
  {
    seq((|s| + 1) / 2, i requires 0 <= i < (|s| + 1) / 2 => (s[2*i], if 2*i + 1 < |s| then s[2*i+1] else s[2*i]))
  }

  function Level(s: seq<Word>): (r: seq<Word>)
    ensures |r| == (|s| + 1) / 2
  {
    var p := Pairing(s);
    seq(|p|, i requires 0 <= i < |p| => HASH(p[i].0, p[i].1))
  }

  function Root(s: seq<Word>): Word
    decreases |s|
  {
    if s == [] then 0 else if |s| == 1 then s[0] else Root(Level(s))
  }

  /** Each node is the hash of its two children in order; a node left over is hashed with itself. */
  lemma LevelAt(s: seq<Word>, i: nat)
    requires i < |Level(s)|
    ensures Level(s)[i] == HASH(s[2*i], if 2*i + 1 < |s| then s[2*i+1] else s[2*i])
  {
  }

  /** The roots of two, three and four leaves written out. */
  lemma SmallRoots(a: Word, b: Word, c: Word, d: Word)
    ensures Root([a]) == a && Root([a, b]) == HASH(a, b)
    ensures Root([a, b, c]) == HASH(HASH(a, b), HASH(c, c))
    ensures Root([a, b, c, d]) == HASH(HASH(a, b), HASH(c, d))
  {
    hide Pairing, Level;
    RootOfTwo(a, b);
    LevelAt([a, b, c], 0);
    LevelAt([a, b, c], 1);
    assert Level([a, b, c]) == [HASH(a, b), HASH(c, c)];
    RootOfTwo(HASH(a, b), HASH(c, c));
    LevelAt([a, b, c, d], 0);
    LevelAt([a, b, c, d], 1);
    assert Level([a, b, c, d]) == [HASH(a, b), HASH(c, d)];
    RootOfTwo(HASH(a, b), HASH(c, d));
  }

  lemma RootOfTwo(a: Word, b: Word)
    ensures Root([a, b]) == HASH(a, b)
  {
    hide Pairing, Level;
    LevelAt([a, b], 0);
    assert Level([a, b]) == [HASH(a, b)];
  }

  /** All levels, leaves first, one after the other. */
  function Flat(s: seq<Word>): seq<Word>
    decreases |s|
  {
    if |s| <= 1 then s else s + Flat(Level(s))
  }

  lemma {:induction false} FlatEnds(s: seq<Word>)
    requires s != []
    ensures Flat(s) != [] && Flat(s)[|Flat(s)|-1] == Root(s)
    decreases |s|
  {
    if |s| > 1 { FlatEnds(Level(s)); }
  }

  // ----- the loop

  /** One level appended to the tree, from the nSize entries at j. */
  method AppendLevel(tree: seq<Word>, j: nat, nSize: nat) returns (r: seq<Word>)
    requires nSize > 1 && j + nSize == |tree|
    ensures r == tree + Level(tree[j..])
  {
    r := tree;
    ghost var s := tree[j..];
    var i := 0;
    while i < nSize
      invariant i % 2 == 0 && 0 <= i <= nSize + 1 && |r| == |tree| + i / 2
      invariant r == tree + Level(s)[..i / 2]
    {
      var i2 := if i + 1 < nSize - 1 then i + 1 else nSize - 1;
      assert Pairing(s)[i / 2] == (r[j + i], r[j + i2]);
      assert Level(s)[..i / 2 + 1] == Level(s)[..i / 2] + [Level(s)[i / 2]];
      r := r + [HASH(r[j + i], r[j + i2])];
      i := i + 2;
    }
    assert Level(s)[..|Level(s)|] == Level(s);
  }

  method BuildMerkleTree(txids: seq<Word>) returns (tree: seq<Word>, root: Word)
    ensures tree == Flat(txids) && root == Root(txids)
  {
    hide Level;
    tree := txids;
    var j, nSize := 0, |txids|;
    ghost var level := txids;
    assert tree == tree[..0] + level;
    while nSize > 1
      invariant j + nSize == |tree| && |level| == nSize && tree[j..] == level
      invariant tree[..j] + Flat(level) == Flat(txids) && Root(level) == Root(txids)
      invariant level != [] <==> txids != []
      decreases nSize
    {
      ghost var before := tree;
      tree := AppendLevel(tree, j, nSize);
      assert tree[..j+nSize] == before == before[..j] + level;
      assert tree[j+nSize..] == Level(level);
      assert before[..j] + (level + Flat(Level(level))) == before + Flat(Level(level));
      j := j + nSize;
      nSize := (nSize + 1) / 2;
      level := Level(level);
    }
    assert tree == tree[..j] + level;
    if txids != [] { FlatEnds(txids); }
    root := if tree == [] then 0 else tree[|tree|-1];
  }

  // ----- the duplicate check

  ghost predicate Distinct(s: seq<Word>) {
    forall i, j :: 0 <= i < j < |s| ==> s[i] != s[j]
  }

  function Elements(s: seq<Word>): set<Word> { set i | 0 <= i < |s| :: s[i] }

  lemma {:induction false} DistinctCount(s: seq<Word>)
    ensures |Elements(s)| <= |s|
    ensures |Elements(s)| == |s| <==> Distinct(s)
  {
    if s == [] {
      assert Elements(s) == {};
    } else {
      var front, x := s[..|s|-1], s[|s|-1];
      DistinctCount(front);
      assert Elements(s) == Elements(front) + {x};
      if x in Elements(front) {
        assert Elements(s) == Elements(front);
      } else {
        assert forall i :: 0 <= i < |front| ==> s[i] == front[i];
      }
    }
  }

  datatype BlockError = MvOk | TxHashMismatch | DuplicatedTransaction

  /** The Merkle part of block validation. */
  method ValidateMerkle(hashMerkle: Word, txids: seq<Word>) returns (r: BlockError)
    ensures r == MvOk <==> hashMerkle == Root(txids) && Distinct(txids)
    ensures r == TxHashMismatch <==> hashMerkle != Root(txids)
  {
    hide Root, Flat, Distinct, Elements;
    var tree, root := BuildMerkleTree(txids);
    if hashMerkle != root {
      return TxHashMismatch;
    }
    FlatStarts(txids);
    var setTx := Elements(tree[..|txids|]);
    DistinctCount(txids);
    if |setTx| != |txids| {
      return DuplicatedTransaction;
    }
    return MvOk;
  }

  lemma FlatStarts(s: seq<Word>)
    ensures |s| <= |Flat(s)| && Flat(s)[..|s|] == s
  {
    hide Level;
  }

  // ----- binding

  /** Every pair hashed on the way to the root. */
  ghost function Pairs(s: seq<Word>): set<(Word, Word)>
    decreases |s|
  {
    if |s| <= 1 then {} else (set i | 0 <= i < |Pairing(s)| :: Pairing(s)[i]) + Pairs(Level(s))
  }

  ghost predicate Hashed(ps: set<(Word, Word)>, x: Word) {
    exists p :: p in ps && HASH(p.0, p.1) == x
  }

  /** Among the pairs ps no two collide, none hashes to a leaf, and zero is neither a hash nor a leaf. */
  ghost predicate Free(ps: set<(Word, Word)>, leaves: set<Word>) {
    && (forall p, q :: p in ps && q in ps && HASH(p.0, p.1) == HASH(q.0, q.1) ==> p == q)
    && (forall x :: x in leaves ==> !Hashed(ps, x))
    && 0 !in leaves && !Hashed(ps, 0)
  }

  lemma PairIn(s: seq<Word>, i: nat)
    requires |s| > 1 && i < |Level(s)|
    ensures Pairing(s)[i] in Pairs(s) && Level(s)[i] == HASH(Pairing(s)[i].0, Pairing(s)[i].1)
    ensures Hashed(Pairs(s), Level(s)[i])
  {
    hide Hashed;
    assert Pairing(s)[i] in Pairs(s);
    HashedBy(Pairs(s), Pairing(s)[i]);
  }

  lemma HashedBy(ps: set<(Word, Word)>, p: (Word, Word))
    requires p in ps
    ensures Hashed(ps, HASH(p.0, p.1))
  {
  }

  lemma HashedMore(ps: set<(Word, Word)>, qs: set<(Word, Word)>, x: Word)
    requires ps <= qs && Hashed(ps, x)
    ensures Hashed(qs, x)
  {
  }

  /** The root of more than one leaf is a hash. */
  lemma {:induction false} RootHashed(s: seq<Word>)
    requires |s| > 1
    ensures Hashed(Pairs(s), Root(s))
    decreases |s|
  {
    hide Hashed, Pairing;
    if |s| == 2 {
      PairIn(s, 0);
    } else {
      RootHashed(Level(s));
      HashedMore(Pairs(Level(s)), Pairs(s), Root(s));
    }
  }

  /** Above the leaves, the first part of a hashed pair is itself a hash. */
  lemma {:induction false} UpperPair(s: seq<Word>, t: seq<Word>, p: (Word, Word))
    requires |s| > 1 && p in Pairs(t) && forall i :: 0 <= i < |t| ==> Hashed(Pairs(s), t[i])
    requires Pairs(t) <= Pairs(s)
    ensures Hashed(Pairs(s), p.0)
    decreases |t|
  {
    hide Hashed;
    if p in Pairs(Level(t)) {
      forall i | 0 <= i < |Level(t)| ensures Hashed(Pairs(s), Level(t)[i]) {
        PairIn(t, i);
        HashedMore(Pairs(t), Pairs(s), Level(t)[i]);
      }
      UpperPair(s, Level(t), p);
    }
  }

  lemma UpperPairOf(s: seq<Word>, p: (Word, Word))
    requires |s| > 1 && p in Pairs(Level(s))
    ensures Hashed(Pairs(s), p.0)
  {
    forall i | 0 <= i < |Level(s)| ensures Hashed(Pairs(s), Level(s)[i]) { PairIn(s, i); }
    UpperPair(s, Level(s), p);
  }

  /** No collision: a level without duplicates gives a level without duplicates. */
  lemma DistinctUp(s: seq<Word>, ps: set<(Word, Word)>, leaves: set<Word>)
    requires |s| > 1 && Distinct(s) && Pairs(s) <= ps && Free(ps, leaves)
    ensures Distinct(Level(s))
  {
    hide Hashed;
    forall i, j | 0 <= i < j < |Level(s)| ensures Level(s)[i] != Level(s)[j] {
      PairIn(s, i);
      PairIn(s, j);
      assert Pairing(s)[i].0 == s[2*i] && Pairing(s)[j].0 == s[2*j];
    }
  }

  /** One level up, nothing collides and no new leaf is hit either. */
  lemma FreeUp(s: seq<Word>, t: seq<Word>)
    requires |s| > 1 && |t| > 1 && Free(Pairs(s) + Pairs(t), Elements(s) + Elements(t))
    ensures Free(Pairs(Level(s)) + Pairs(Level(t)), Elements(Level(s)) + Elements(Level(t)))
  {
    hide Hashed, Pairing, Level, Pairs;
    var all, up := Pairs(s) + Pairs(t), Pairs(Level(s)) + Pairs(Level(t));
    UpperPairs(s);
    UpperPairs(t);
    assert up <= all;
    if Hashed(up, 0) { HashedMore(up, all, 0); }
    forall x | x in Elements(Level(s)) + Elements(Level(t)) ensures !Hashed(up, x) && x != 0 {
      if x in Elements(Level(s)) { NoUpperClash(s, s, t, x); } else { NoUpperClash(t, s, t, x); }
    }
  }

  lemma UpperPairs(s: seq<Word>)
    requires |s| > 1
    ensures Pairs(Level(s)) <= Pairs(s)
  {
  }

  /** A node of the level above u is not hashed again further up, or a leaf of u would be a hash. */
  lemma NoUpperClash(u: seq<Word>, s: seq<Word>, t: seq<Word>, x: Word)
    requires |s| > 1 && |t| > 1 && (u == s || u == t) && x in Elements(Level(u))
    requires Free(Pairs(s) + Pairs(t), Elements(s) + Elements(t))
    ensures x != 0 && !Hashed(Pairs(Level(s)) + Pairs(Level(t)), x)
  {
    hide Pairing, Level, Pairs;
    var all, up := Pairs(s) + Pairs(t), Pairs(Level(s)) + Pairs(Level(t));
    UpperPairs(s);
    UpperPairs(t);
    var i :| 0 <= i < |Level(u)| && Level(u)[i] == x;
    PairIn(u, i);
    HashedMore(Pairs(u), all, x);
    if Hashed(up, x) {
      var p :| p in up && HASH(p.0, p.1) == x;
      FirstOfPair(u, i);
      assert p == Pairing(u)[i] && p.0 in Elements(s) + Elements(t);
      if p in Pairs(Level(s)) {
        UpperPairOf(s, p);
        HashedMore(Pairs(s), all, p.0);
      } else {
        UpperPairOf(t, p);
        HashedMore(Pairs(t), all, p.0);
      }
    }
  }

  lemma FirstOfPair(s: seq<Word>, i: nat)
    requires i < |Level(s)|
    ensures Pairing(s)[i].0 in Elements(s)
  {
    assert Pairing(s)[i].0 == s[2*i];
  }

  /** Equal levels come from equal levels: a different length would need a duplicate. */
  lemma LevelInjective(s: seq<Word>, t: seq<Word>, ps: set<(Word, Word)>, leaves: set<Word>)
    requires |s| > 1 && |t| > 1 && Distinct(s) && Distinct(t) && Pairs(s) <= ps && Pairs(t) <= ps && Free(ps, leaves)
    requires Level(s) == Level(t)
    ensures s == t
  {
    hide Hashed, Distinct;
    forall i | 0 <= i < |Level(s)| ensures Pairing(s)[i] == Pairing(t)[i] {
      PairIn(s, i);
      PairIn(t, i);
    }
    SamePairing(s, t);
  }

  lemma SamePairing(s: seq<Word>, t: seq<Word>)
    requires |s| > 1 && |t| > 1 && Distinct(s) && Distinct(t) && |Pairing(s)| == |Pairing(t)|
    requires forall i :: 0 <= i < |Pairing(s)| ==> Pairing(s)[i] == Pairing(t)[i]
    ensures s == t
  {
    var m := |Pairing(s)|;
    assert Pairing(s)[m-1] == Pairing(t)[m-1];
    assert |s| == |t|;
    forall k | 0 <= k < |s| ensures s[k] == t[k] {
      assert Pairing(s)[k / 2] == Pairing(t)[k / 2];
    }
  }

  /** The root of at most one leaf is no hash. */
  lemma SmallRoot(t: seq<Word>, ps: set<(Word, Word)>, leaves: set<Word>)
    requires |t| <= 1 && Elements(t) <= leaves && Free(ps, leaves)
    ensures !Hashed(ps, Root(t))
    ensures Root(t) == 0 <==> t == []
  {
    hide Hashed;
    if |t| == 1 { assert t[0] in Elements(t); }
  }

  lemma BigRoot(s: seq<Word>, ps: set<(Word, Word)>)
    requires |s| > 1 && Pairs(s) <= ps
    ensures Hashed(ps, Root(s))
  {
    RootHashed(s);
    HashedMore(Pairs(s), ps, Root(s));
  }

  /** Two duplicate-free lists of transactions with one root are the same list, whatever their lengths,
      unless the computation of the two roots itself shows a collision, a leaf that is a hash, or a zero. */
  lemma {:induction false} MerkleBinding(s: seq<Word>, t: seq<Word>)
    requires Distinct(s) && Distinct(t) && Root(s) == Root(t)
    requires Free(Pairs(s) + Pairs(t), Elements(s) + Elements(t))
    ensures s == t
    decreases |s|
  {
    hide Hashed, Level, Pairing, Pairs;
    var ps, leaves := Pairs(s) + Pairs(t), Elements(s) + Elements(t);
    if |s| > 1 && |t| > 1 {
      FreeUp(s, t);
      DistinctUp(s, ps, leaves);
      DistinctUp(t, ps, leaves);
      MerkleBinding(Level(s), Level(t));
      LevelInjective(s, t, ps, leaves);
    } else {
      if |s| > 1 { BigRoot(s, ps); } else { SmallRoot(s, ps, leaves); }
      if |t| > 1 { BigRoot(t, ps); } else { SmallRoot(t, ps, leaves); }
      assert |s| <= 1 && |t| <= 1;
    }
  }

  /** Without the duplicate check the root does not bind: repeating an odd last transaction keeps it. */
  lemma DuplicateKeepsRoot(s: seq<Word>)
    requires |s| % 2 == 1 && |s| > 1
    ensures Root(s + [s[|s|-1]]) == Root(s) && !Distinct(s + [s[|s|-1]])
  {
    var t := s + [s[|s|-1]];
    forall i | 0 <= i < |Level(s)| ensures Level(t)[i] == Level(s)[i] {
      assert Pairing(t)[i] == Pairing(s)[i];
    }
    assert Level(t) == Level(s);
    assert t[|s|-1] == t[|s|];
  }
}

/** A byte source that hands out its contents in non-empty fragments of any size. */
module SnappySource {
  import opened Bytes

  function Flatten(frags: seq<seq<byte>>): seq<byte> {
    if frags == [] then [] else frags[0] + Flatten(frags[1..])
  }

  /** The fragments of a flat buffer. */
  function Whole(bytes: seq<byte>): seq<seq<byte>> { if bytes == [] then [] else [bytes] }

  class Source {
    var frags: seq<seq<byte>>

    ghost predicate Valid()
      reads this
    {
      forall i :: 0 <= i < |frags| ==> frags[i] != []
    }

    ghost function Bytes(): seq<byte>
      reads this
    {
      Flatten(frags)
    }

    constructor (frags: seq<seq<byte>>)
      requires forall i :: 0 <= i < |frags| ==> frags[i] != []
      ensures Valid() && Bytes() == Flatten(frags)
    {
      this.frags := frags;
    }

    /** A source over one flat buffer. */
    constructor Flat(bytes: seq<byte>)
      ensures Valid() && Bytes() == bytes && frags == Whole(bytes)
    {
      frags := Whole(bytes);
      new;
      FlattenOne(bytes);
    }

    lemma FrontOfBytes()
      requires Valid()
      ensures |Front(frags)| <= |Bytes()| && Bytes()[..|Front(frags)|] == Front(frags)
      ensures Front(frags) == [] <==> Bytes() == []
    {
      FrontPrefix(frags);
    }

    lemma FrontSizes()
      requires Valid()
      ensures !AnyLarge(frags) ==> |Front(frags)| < COUNTER_LIMIT
      ensures AnyLarge(frags) ==> Front(frags) != []
    {
      if frags != [] && !AnyLarge(frags) { assert |frags[0]| < COUNTER_LIMIT; }
    }

    method Available() returns (n: nat)
      ensures n == |Bytes()|
    {
      n := 0;
      for i := 0 to |frags|
        invariant n + |Flatten(frags[i..])| == |Flatten(frags)|
      {
        assert frags[i..][1..] == frags[i+1..];
        n := n + |frags[i]|;
      }
      assert frags[|frags|..] == [];
    }

    /** The next fragment: a prefix of what is left, empty only at the end. */
    method Peek() returns (frag: seq<byte>)
      requires Valid()
      ensures frag == Front(frags)
    {
      frag := if frags == [] then [] else frags[0];
    }

    /** Skip bytes that are there, across fragments if need be. */
    method Skip(n: nat)
      requires Valid() && n <= |Bytes()|
      modifies this
      ensures Valid() && Bytes() == old(Bytes())[n..] && frags == Drop(old(frags), n)
    {
      ghost var was := frags;
      DropBytes(was, n);
      var left := n;
      while left > 0 && left >= |frags[0]|
        invariant 0 <= left <= n && (left > 0 ==> frags != []) && Valid() && Drop(frags, left) == Drop(was, n)
        invariant left <= |Flatten(frags)|
        decreases |frags|
      {
        left := left - |frags[0]|;
        frags := frags[1..];
      }
      if left > 0 {
        frags := [frags[0][left..]] + frags[1..];
      }
    }
  }

  /** The fragments that are left after n bytes. */
  function Drop(frags: seq<seq<byte>>, n: nat): seq<seq<byte>> {
    if n == 0 || frags == [] then frags
    else if n < |frags[0]| then [frags[0][n..]] + frags[1..]
    else Drop(frags[1..], n - |frags[0]|)
  }

  lemma {:induction false} DropBytes(frags: seq<seq<byte>>, n: nat)
    requires n <= |Flatten(frags)| && forall i :: 0 <= i < |frags| ==> frags[i] != []
    ensures Flatten(Drop(frags, n)) == Flatten(frags)[n..]
    ensures forall i :: 0 <= i < |Drop(frags, n)| ==> Drop(frags, n)[i] != []
  {
    if n > 0 {
      var first, rest := frags[0], frags[1..];
      if n < |first| {
        assert (first + Flatten(rest))[n..] == first[n..] + Flatten(rest);
        assert Drop(frags, n)[1..] == rest;
      } else {
        DropBytes(rest, n - |first|);
        assert (first + Flatten(rest))[n..] == Flatten(rest)[n-|first|..];
      }
    }
  }

  lemma DropNone(frags: seq<seq<byte>>)
    ensures Drop(frags, 0) == frags
  {
  }

  lemma {:induction false} DropDrop(frags: seq<seq<byte>>, n: nat, m: nat)
    ensures Drop(Drop(frags, n), m) == Drop(frags, n + m)
  {
    if n > 0 && m > 0 && frags != [] {
      var first, rest := frags[0], frags[1..];
      if n >= |first| {
        DropDrop(rest, n - |first|, m);
      } else if n + m < |first| {
        assert first[n..][m..] == first[n+m..];
      } else {
        assert Drop(frags, n)[1..] == rest;
      }
    }
  }

  lemma FrontDrop(frags: seq<seq<byte>>, n: nat)
    requires n < |Front(frags)|
    ensures |Front(Drop(frags, n))| == |Front(frags)| - n
  {
  }

  // ----- fragments too long for a 32-bit counter

  const COUNTER_LIMIT := 0x1_0000_0000

  ghost predicate AnyLarge(frags: seq<seq<byte>>) {
    exists i :: 0 <= i < |frags| && |frags[i]| >= COUNTER_LIMIT
  }

  /** Dropping bytes makes no fragment longer. */
  lemma {:induction false} DropStaysSmall(frags: seq<seq<byte>>, n: nat)
    requires !AnyLarge(frags)
    ensures !AnyLarge(Drop(frags, n))
  {
    if n > 0 && frags != [] {
      if n < |frags[0]| {
        assert forall i :: 0 < i < |frags| ==> Drop(frags, n)[i] == frags[i];
      } else {
        assert !AnyLarge(frags[1..]) by { assert forall i :: 0 <= i < |frags[1..]| ==> frags[1..][i] == frags[i+1]; }
        DropStaysSmall(frags[1..], n - |frags[0]|);
      }
    }
  }

  /** A large fragment outlasts any skip that a 32-bit count of the front fragment allows. */
  lemma DropStaysLarge(frags: seq<seq<byte>>, n: nat)
    requires AnyLarge(frags) && n <= |Front(frags)| % COUNTER_LIMIT
    ensures AnyLarge(Drop(frags, n))
  {
    var i :| 0 <= i < |frags| && |frags[i]| >= COUNTER_LIMIT;
    var r := Drop(frags, n);
    if n == 0 {
      assert r == frags;
    } else if n < |frags[0]| {
      assert |r[i]| >= COUNTER_LIMIT;
    } else {
      assert |frags[0]| < COUNTER_LIMIT && n == |frags[0]|;
      assert Drop(frags[1..], 0) == frags[1..];
      assert r == frags[1..] && r[i-1] == frags[i];
    }
  }

  function Front(frags: seq<seq<byte>>): seq<byte> { if frags == [] then [] else frags[0] }

  lemma FlattenOne(bytes: seq<byte>)
    ensures Flatten(Whole(bytes)) == bytes
  {
    if bytes != [] {
      assert [bytes][1..] == [];
      assert Flatten([bytes]) == bytes + [];
    }
  }

  /** The front fragment is a prefix of the whole, and empty only with it. */
  lemma FrontPrefix(frags: seq<seq<byte>>)
    requires forall i :: 0 <= i < |frags| ==> frags[i] != []
    ensures |Front(frags)| <= |Flatten(frags)| && Flatten(frags)[..|Front(frags)|] == Front(frags)
    ensures Front(frags) == [] <==> Flatten(frags) == []
  {
  }
}

/** The decompressor: reading tags from a fragmented source and driving a writer. */
module SnappyDecompress {
  import opened Words
  import opened Bytes
  import opened SnappyFormat
  import opened SnappyFlatWriters
  import opened SnappySource
  import W = SnappyWriters

  /** What a refill comes to: the loop that stitches a tag together may go round without moving. */
  datatype Refill = Filled | Failed | Stuck

  class SnappyDecompressor {
    const reader: Source
    var buf: seq<byte>       // the buffer ip points into: a fragment of the source, or the scratch bytes
    var ip: nat
    var limit: nat           // one past the last buffered byte
    var peeked: nat          // bytes of the buffer the source still has to skip, in 32 bits
    ghost var seen: nat      // the same uncut
    var eof: bool
    var scratch: seq<byte>

    ghost predicate Valid()
      reads this, reader
    {
      && ip <= limit <= |buf| && |scratch| == MAXIMUM_TAG_LENGTH
      && reader.Valid() && (seen == 0 || seen == |Front(reader.frags)|) && seen <= |reader.Bytes()|
      && peeked == seen % COUNTER_LIMIT && (limit - ip >= COUNTER_LIMIT ==> Large())
    }

    /** Some fragment of what the source holds is too long for the counter. */
    ghost predicate Large()
      reads reader
    {
      AnyLarge(reader.frags)
    }

    /** What is left to decode: the buffered bytes, then the source past the peeked ones. */
    ghost function Rest(): seq<byte>
      requires Valid()
      reads this, reader
    {
      buf[ip..limit] + reader.Bytes()[seen..]
    }

    /** The next tag is complete in the buffer, and five bytes from it are readable. */
    ghost predicate Ready()
      reads this
    {
      ip < limit <= |buf| && ip + 1 + Extra(buf[ip]) <= limit && ip + MAXIMUM_TAG_LENGTH <= |buf|
    }

    /** The buffer is used up and the fragment to come is a multiple of what the counter can hold. */
    ghost predicate Uncounted()
      reads this, reader
    {
      var front := |Front(reader.frags)|;
      ip == limit && (seen >= COUNTER_LIMIT || (seen == 0 && front > 0 && front % COUNTER_LIMIT == 0))
    }

    /** How often the source may still hand out bytes of its front fragment again. */
    ghost function Rewinds(): nat
      reads this, reader
    {
      var front := |Front(reader.frags)|;
      if front < COUNTER_LIMIT then 0 else if seen > 0 then 1 else if front % COUNTER_LIMIT == 0 then 0 else 2
    }

    /** The source moves on, or hands out its front fragment again, or nothing is left to read twice. */
    twostate predicate Onward()
      requires old(Valid()) && Valid()
      reads this, reader
    {
      var before, now := old(|reader.Bytes()|), |reader.Bytes()|;
      now < before || (now == before && (Rewinds() < old(Rewinds())
                                         || (Rewinds() == old(Rewinds()) && |Rest()| <= old(|Rest()|))))
    }

    constructor (source: Source)
      requires source.Valid()
      ensures reader == source && Valid() && !eof && Rest() == reader.Bytes() && ip == limit && seen == 0
    {
      reader := source;
      buf, ip, limit, peeked, seen, eof := [], 0, 0, 0, 0, false;
      scratch := [0, 0, 0, 0, 0];
      new;
      assert [] + source.Bytes() == source.Bytes();
    }

    // ----- the length prefix

    method ReadUncompressedLength() returns (r: Option<nat>)
      requires Valid() && ip == limit && seen == 0
      modifies reader
      ensures Varint(old(reader.Bytes())).None? ==> r.None?
      ensures Varint(old(reader.Bytes())).Some? ==>
                var (v, n) := Varint(old(reader.Bytes())).value;
                && n <= |old(reader.Bytes())| && r == Some(v) && Valid() && Rest() == old(reader.Bytes())[n..]
                && reader.frags == Drop(old(reader.frags), n)
    {
      hide Varint, VarintAt, Source.Valid, Source.Bytes, Drop, AnyLarge;
      ghost var s, frags := reader.Bytes(), reader.frags;
      DropNone(frags);
      var result, k := 0, 0;
      while true
        invariant 0 <= k <= 5 && reader.Valid() && Continued(s, k) && reader.Bytes() == s[k..]
        invariant reader.frags == Drop(frags, k)
        invariant k <= 4 ==> result == Groups(s, k)
        invariant k == 5 ==> Varint(s).None?
        decreases 5 - k
      {
        if k >= 5 {
          return None;
        }
        reader.FrontOfBytes();
        var front := reader.Peek();
        if |front| == 0 {
          VarintStop(s, k);
          return None;
        }
        var c := front[0];
        assert c == s[k];
        reader.Skip(1);
        DropDrop(frags, k, 1);
        var val := c % 128;
        var unit := GroupUnit(k);
        if val * unit % VARINT_LIMIT / unit != val {
          ShiftLost(val, k);
          VarintStop(s, k);
          return None;
        }
        if k == 4 { ShiftKept(val); }
        if c < 128 {
          VarintUnwind(s, k);
          r := Some(result + val * unit);
          assert unit * c == val * unit;
          assert buf[ip..limit] + s[k+1..] == s[k+1..];
          return;
        }
        if k == 4 { VarintStop(s, k); }
        result := result + unit * val;
        k := k + 1;
      }
    }

    // ----- refilling

    /** Let the source skip what was peeked, as far as the counter knows. */
    method SkipPeeked()
      requires Valid()
      modifies this`peeked, this`seen, reader
      ensures Valid() && seen == 0 && (Large() <==> old(Large()))
      ensures !Large() ==> reader.Bytes() == old(reader.Bytes()[seen..])
      ensures |reader.Bytes()| == old(|reader.Bytes()| - peeked)
      ensures old(peeked) == 0 ==> reader.frags == old(reader.frags)
      ensures old(seen) >= COUNTER_LIMIT ==> |Front(reader.frags)| == old(seen - peeked)
    {
      hide Source.Valid, Source.Bytes, Drop, AnyLarge;
      ghost var frags := reader.frags;
      SmallSeen();
      DropNone(frags);
      assert peeked <= seen;
      reader.Skip(peeked);
      if AnyLarge(frags) { DropStaysLarge(frags, peeked); } else { DropStaysSmall(frags, peeked); }
      if seen >= COUNTER_LIMIT { FrontDrop(frags, peeked); }
      peeked, seen := 0, 0;
    }

    /** Without a large fragment the counter is exact. */
    lemma SmallSeen()
      requires Valid()
      ensures !Large() ==> peeked == seen
      ensures peeked <= |Front(reader.frags)| % COUNTER_LIMIT
    {
      hide Source.Valid, Source.Bytes, AnyLarge;
      reader.FrontSizes();
    }

    /** Make the next tag complete and five bytes readable, stitching fragments in scratch if need be. When a
        buffer that is one large fragment is used up, the loop finds nothing it can count and never ends. */
    method RefillTag() returns (r: Refill)
      requires Valid() && !eof && limit - ip < MAXIMUM_TAG_LENGTH
      modifies this, reader
      ensures r.Filled? ==> Valid() && Ready() && !eof && (Large() <==> old(Large()))
      ensures r.Filled? ==> Onward()
      ensures !old(Large()) ==> !r.Stuck? && (r.Filled? ==> Rest() == old(Rest()))
      ensures !old(Large()) && r.Failed? && eof ==> old(Rest()) == []
      ensures !old(Large()) && r.Failed? && !eof ==> old(Rest()) != [] && |old(Rest())| < 1 + Extra(old(Rest())[0])
      ensures old(Large()) ==> !eof
      ensures old(Uncounted()) ==> r.Stuck?
    {
      hide Source.Valid, Source.Bytes, Extra, AnyLarge, SnappyDecompressor.Rewinds;
      if ip == limit {
        var ok := NextFragment();
        if !ok {
          eof := true;
          return Failed;
        }
        eof := false;
      }
      r := CompleteTag();
    }

    /** Make the tag at ip complete, from the buffer alone or with bytes of the source. */
    method CompleteTag() returns (r: Refill)
      requires Valid() && ip < limit && ((limit - ip) % COUNTER_LIMIT == 0 ==> peeked == 0 && seen > 0)
      modifies this, reader
      ensures eof == old(eof)
      ensures r.Filled? ==> Valid() && Ready() && (Large() <==> old(Large())) && Onward()
      ensures !old(Large()) ==> !r.Stuck? && (r.Filled? ==> Rest() == old(Rest()))
      ensures !old(Large()) && r.Failed? ==> |old(Rest())| < 1 + Extra(old(Rest())[0])
      ensures old((limit - ip) % COUNTER_LIMIT == 0) ==> r.Stuck?
    {
      hide Source.Valid, Source.Bytes, Extra, AnyLarge, SnappyDecompressor.Rewinds;
      var c := buf[ip];
      assert Rest()[0] == c;
      ExtraBytes(c);
      var needed := Extra(c) + 1;
      var nbuf := (limit - ip) % COUNTER_LIMIT;
      if nbuf < needed {
        r := Stitch(nbuf, needed);
      } else if nbuf < MAXIMUM_TAG_LENGTH {
        MoveToScratch(nbuf);
        r := Filled;
      } else {
        r := Filled;
      }
    }

    /** Fetch a new fragment once the buffer is used up. */
    method NextFragment() returns (ok: bool)
      requires Valid() && ip == limit
      modifies this, reader
      ensures eof == old(eof)
      ensures ok ==> Valid() && (Large() <==> old(Large())) && ip == 0 < limit == seen == |Front(reader.frags)|
      ensures ok && limit % COUNTER_LIMIT != 0 ==> Onward()
      ensures ok && old(Uncounted()) ==> limit % COUNTER_LIMIT == 0
      ensures ok && !Large() ==> Rest() == old(Rest())
      ensures !ok ==> old(Rest()) == [] && !old(Large()) && !old(Uncounted())
    {
      hide Source.Valid, Source.Bytes, AnyLarge;
      Exhausted();
      SmallSeen();
      reader.FrontSizes();
      SkipPeeked();
      reader.FrontOfBytes();
      reader.FrontSizes();
      var front := reader.Peek();
      if |front| == 0 {
        return false;
      }
      Rejoin(front, reader.Bytes());
      peeked, seen := |front| % COUNTER_LIMIT, |front|;
      buf, ip, limit := front, 0, |front|;
      return true;
    }

    lemma Exhausted()
      requires Valid() && ip == limit
      ensures Rest() == reader.Bytes()[seen..]
    {
      assert buf[ip..limit] == [];
    }

    /** The first nbuf buffered bytes moved to the front of scratch, the peeked bytes skipped. */
    method MoveToScratch(nbuf: nat)
      requires Valid() && nbuf < MAXIMUM_TAG_LENGTH && nbuf == (limit - ip) % COUNTER_LIMIT
      modifies this, reader
      ensures Valid() && eof == old(eof) && (Large() <==> old(Large())) && seen == 0
      ensures Onward()
      ensures ip == 0 && limit == nbuf && |buf| == MAXIMUM_TAG_LENGTH && buf == scratch
      ensures old(ip) + nbuf <= old(limit) && buf[..nbuf] == old(buf)[old(ip)..old(ip)+nbuf]
      ensures !Large() ==> nbuf == old(limit - ip) && Rest() == old(Rest()) && reader.Bytes() == Rest()[nbuf..]
      ensures old(peeked) == 0 ==> reader.frags == old(reader.frags)
    {
      hide Source.Valid, Source.Bytes, AnyLarge;
      scratch := buf[ip..ip+nbuf] + scratch[nbuf..];
      assert scratch[..nbuf] == buf[ip..ip+nbuf];
      SkipPeeked();
      buf, ip, limit := scratch, 0, nbuf;
      assert buf[0..nbuf] == scratch[..nbuf];
      assert reader.Bytes()[0..] == reader.Bytes();
    }

    /** Bring exactly the bytes the tag needs into scratch, from as many fragments as it takes. */
    method Stitch(nbuf: nat, needed: nat) returns (r: Refill)
      requires Valid() && ip < limit && nbuf == (limit - ip) % COUNTER_LIMIT && nbuf < needed <= MAXIMUM_TAG_LENGTH
      requires needed == 1 + Extra(buf[ip]) && (nbuf == 0 ==> peeked == 0 && seen > 0)
      modifies this, reader
      ensures eof == old(eof)
      ensures r.Filled? ==> Valid() && Ready() && (Large() <==> old(Large()))
      ensures r.Filled? ==> Onward()
      ensures !old(Large()) ==> !r.Stuck? && (r.Filled? ==> Rest() == old(Rest()))
      ensures !old(Large()) && r.Failed? ==> |old(Rest())| < needed
      ensures nbuf == 0 ==> r.Stuck?
    {
      hide Source.Valid, Source.Bytes, Extra, AnyLarge;
      ghost var rest := Rest();
      MoveToScratch(nbuf);
      var bytes;
      r, bytes := Gather(scratch, nbuf, needed, rest);
      if !r.Filled? {
        return;
      }
      scratch := bytes;
      buf, ip, limit := scratch, 0, needed;
      assert bytes[..nbuf][0] == bytes[0];
      if !Large() {
        assert buf[0..needed] == rest[..needed] && rest == rest[..needed] + rest[needed..];
      }
    }

    /** Append bytes of the source to the first n of s until there are as many as needed. */
    method Gather(s: seq<byte>, n: nat, needed: nat, ghost rest: seq<byte>) returns (r: Refill, t: seq<byte>)
      requires |s| == MAXIMUM_TAG_LENGTH && n < needed <= |s| && reader.Valid()
      requires !Large() ==> n <= |rest| && s[..n] == rest[..n] && reader.Bytes() == rest[n..]
      requires n == 0 ==> |Front(reader.frags)| > 0 && |Front(reader.frags)| % COUNTER_LIMIT == 0
      modifies reader
      ensures r.Filled? ==> n > 0 && reader.Valid() && (Large() <==> old(Large())) && |t| == |s| && t[..n] == s[..n]
      ensures r.Filled? ==> |reader.Bytes()| < |old(reader.Bytes())|
      ensures !old(Large()) ==> !r.Stuck?
      ensures !old(Large()) && r.Filled? ==>
                needed <= |rest| && t[..needed] == rest[..needed] && reader.Bytes() == rest[needed..]
      ensures !old(Large()) && r.Failed? ==> |rest| < needed
      ensures n == 0 ==> r.Stuck?
    {
      hide Source.Valid, Source.Bytes, AnyLarge;
      var nbuf := n;
      t := s;
      while nbuf < needed
        invariant n <= nbuf <= needed && |t| == |s| && t[..n] == s[..n] && reader.Valid() && (Large() <==> old(Large()))
        invariant nbuf == n ==> unchanged(reader)
        invariant nbuf > n ==> n > 0 && |reader.Bytes()| < |old(reader.Bytes())|
        invariant !Large() ==> nbuf <= |rest| && t[..nbuf] == rest[..nbuf] && reader.Bytes() == rest[nbuf..]
        decreases needed - nbuf
      {
        var u, added;
        r, u, added := AddPiece(t, nbuf, needed, rest);
        if !r.Filled? {
          return;
        }
        assert u[..n] == u[..nbuf][..n] == t[..nbuf][..n] == t[..n];
        t, nbuf := u, nbuf + added;
      }
      return Filled, t;
    }

    /** Append what the next fragment has, as the counter sees it, to the first n of t. */
    method AddPiece(t: seq<byte>, n: nat, needed: nat, ghost rest: seq<byte>)
      returns (r: Refill, u: seq<byte>, added: nat)
      requires n < needed <= |t| && reader.Valid()
      requires !Large() ==> n <= |rest| && t[..n] == rest[..n] && reader.Bytes() == rest[n..]
      modifies reader
      ensures r.Filled? ==> reader.Valid() && (Large() <==> old(Large())) && |reader.Bytes()| < |old(reader.Bytes())|
      ensures r.Filled? ==> |u| == |t| && 0 < added <= needed - n && u[..n] == t[..n]
      ensures !old(Large()) ==> !r.Stuck?
      ensures !old(Large()) && r.Filled? ==>
                n + added <= |rest| && u[..n+added] == rest[..n+added] && reader.Bytes() == rest[n+added..]
      ensures !old(Large()) && r.Failed? ==> |rest| == n
      ensures |old(Front(reader.frags))| > 0 && |old(Front(reader.frags))| % COUNTER_LIMIT == 0 ==> r.Stuck?
    {
      hide Source.Valid, Source.Bytes, AnyLarge, Drop;
      u, added := t, 0;
      reader.FrontOfBytes();
      reader.FrontSizes();
      var src := reader.Peek();
      if |src| == 0 {
        return Failed, u, added;
      }
      var counted := |src| % COUNTER_LIMIT;
      added := if needed - n < counted then needed - n else counted;
      if added == 0 {
        return Stuck, u, added;
      }
      Patch(t, n, src[..added]);
      if !Large() { Stitched(t[..n], src, rest, added); }
      u := t[..n] + src[..added] + t[n+added..];
      SkipSome(added);
      r := Filled;
    }

    method SkipSome(n: nat)
      requires reader.Valid() && 0 < n <= |Front(reader.frags)| % COUNTER_LIMIT
      modifies reader
      ensures reader.Valid() && (Large() <==> old(Large())) && n <= |old(reader.Bytes())|
      ensures reader.Bytes() == old(reader.Bytes())[n..]
    {
      hide Source.Valid, Source.Bytes, AnyLarge, Drop;
      ghost var frags := reader.frags;
      reader.FrontOfBytes();
      reader.Skip(n);
      if AnyLarge(frags) { DropStaysLarge(frags, n); } else { DropStaysSmall(frags, n); }
    }

    method MaybeRefill() returns (r: Refill)
      requires Valid() && !eof
      modifies this, reader
      ensures r.Filled? ==> Valid() && Ready() && !eof && (Large() <==> old(Large()))
      ensures r.Filled? ==> Onward()
      ensures !old(Large()) ==> !r.Stuck? && (r.Filled? ==> Rest() == old(Rest()))
      ensures !old(Large()) && r.Failed? && eof ==> old(Rest()) == []
      ensures !old(Large()) && r.Failed? && !eof ==> old(Rest()) != [] && |old(Rest())| < 1 + Extra(old(Rest())[0])
      ensures old(Large()) ==> !eof
    {
      hide Extra, Source.Valid, Source.Bytes, AnyLarge;
      r := Filled;
      if limit - ip < MAXIMUM_TAG_LENGTH {
        r := RefillTag();
      } else {
        ExtraBytes(buf[ip]);
      }
    }

    // ----- tags

    /** The writer shares no object with the decompressor. */
    ghost predicate Apart(w: W.Writer)
      reads this, W.Self(w)
    {
      this !in W.Repr(w) && reader !in W.Repr(w)
    }

    /** Pass len bytes of the input to the writer, fragment by fragment. */
    method ReadLiteral(w: W.Writer, len: nat) returns (ok: bool)
      requires Valid() && !eof && W.Valid(w) && Apart(w)
      modifies this, reader, W.Repr(w)
      ensures !eof && Apart(w) && fresh(W.Repr(w) - old(W.Repr(w)))
      ensures ok ==> Valid() && W.Valid(w) && W.Expected(w) == old(W.Expected(w)) && (Large() <==> old(Large()))
      ensures ok ==> |W.Contents(w)| == |old(W.Contents(w))| + len
      ensures ok && len == 0 ==> unchanged(reader) && seen == old(seen) && Rest() == old(Rest())
      ensures !old(Large()) ==> ok == (len <= |old(Rest())| && |old(W.Contents(w))| + len <= old(W.Expected(w)))
      ensures !old(Large()) && ok ==>
                Rest() == old(Rest())[len..] && W.Contents(w) == old(W.Contents(w)) + old(Rest())[..len]
    {
      hide Source.Valid, Source.Bytes, AnyLarge, Consumed, W.Valid, W.Contents, W.Expected;
      hide SnappyDecompressor.Valid, SnappyDecompressor.Rest, SnappyDecompressor.Large;
      ghost var rest, out := Rest(), W.Contents(w);
      W.ReprSelf(w);
      ValidFacts();
      ConsumedNone(rest, out);
      var left := len;
      if limit - ip < len {
        ok, left := PassFragments(w, len);
        if !ok {
          return;
        }
      }
      if !Large() { ConsumedMore(rest, out, len - left, Rest(), W.Contents(w), left); }
      ok := PassChunk(w, left);
      if ok && !Large() { ConsumedFacts(rest, out, len, Rest(), W.Contents(w)); }
    }

    /** Pass whole fragments to the writer until the rest of the literal is buffered. */
    method PassFragments(w: W.Writer, len: nat) returns (ok: bool, left: nat)
      requires Valid() && W.Valid(w) && Apart(w) && limit - ip < len
      modifies this, reader, W.Repr(w)
      ensures eof == old(eof) && Apart(w) && fresh(W.Repr(w) - old(W.Repr(w)))
      ensures ok ==> Valid() && W.Valid(w) && W.Expected(w) == old(W.Expected(w)) && (Large() <==> old(Large()))
      ensures ok ==> left <= len && ip + left <= limit && limit - ip <= |Rest()|
      ensures ok ==> |W.Contents(w)| == |old(W.Contents(w))| + len - left
      ensures !old(Large()) && !ok ==> len > |old(Rest())| || |old(W.Contents(w))| + len > old(W.Expected(w))
      ensures !old(Large()) && ok ==> Consumed(old(Rest()), old(W.Contents(w)), len - left, Rest(), W.Contents(w))
    {
      hide Source.Valid, Source.Bytes, AnyLarge, Consumed, W.Valid, W.Contents, W.Expected;
      hide SnappyDecompressor.Valid, SnappyDecompressor.Rest, SnappyDecompressor.Large;
      ghost var rest, out, expected := Rest(), W.Contents(w), W.Expected(w);
      W.ReprSelf(w);
      ValidFacts();
      ConsumedNone(rest, out);
      left := len;
      while limit - ip < left
        invariant Valid() && eof == old(eof) && W.Valid(w) && Apart(w) && W.Expected(w) == expected && left <= len
        invariant ip <= limit && limit - ip <= |Rest()| && (Large() <==> old(Large()))
        invariant |W.Contents(w)| == |out| + len - left
        invariant !Large() ==> Consumed(rest, out, len - left, Rest(), W.Contents(w))
        invariant fresh(W.Repr(w) - old(W.Repr(w)))
        decreases left, if limit - ip == 0 then 1 else 0
      {
        if !Large() { ConsumedMore(rest, out, len - left, Rest(), W.Contents(w), limit - ip); }
        left := left - (limit - ip);
        ok := PassFragment(w);
        if !ok {
          return;
        }
      }
      ok := true;
    }

    lemma ValidFacts()
      requires Valid()
      ensures ip <= limit <= |buf| && limit - ip <= |Rest()|
    {
    }

    /** Step over k buffered bytes. */
    method Advance(k: nat)
      requires Valid() && ip + k <= limit
      modifies this`ip
      ensures Valid() && ip == old(ip) + k && k <= |old(Rest())|
      ensures Rest() == old(Rest())[k..] && buf[ip-k..ip] == old(Rest())[..k]
    {
      hide Source.Valid, Source.Bytes;
      ghost var rest := Rest();
      assert rest[..k] == buf[ip..ip+k];
      assert rest[k..] == buf[ip+k..limit] + reader.Bytes()[seen..];
      ip := ip + k;
    }

    /** Pass everything buffered to the writer and fetch the next fragment. */
    method PassFragment(w: W.Writer) returns (ok: bool)
      requires Valid() && W.Valid(w) && Apart(w)
      modifies this, reader, W.Repr(w)
      ensures eof == old(eof) && Apart(w) && fresh(W.Repr(w) - old(W.Repr(w)))
      ensures old(limit - ip) <= |old(Rest())|
      ensures !ok && !old(Large()) ==>
                |old(Rest())| == old(limit - ip) || |old(W.Contents(w))| + old(limit - ip) > old(W.Expected(w))
      ensures ok ==> Valid() && W.Valid(w) && W.Expected(w) == old(W.Expected(w)) && (Large() <==> old(Large()))
      ensures ok ==> ip < limit && limit - ip <= |Rest()|
      ensures ok ==> W.Contents(w) == old(W.Contents(w)) + old(Rest())[..old(limit-ip)]
      ensures ok && !old(Large()) ==> Rest() == old(Rest())[old(limit-ip)..]
    {
      hide Source.Valid, Source.Bytes, AnyLarge, W.Valid, W.Contents, W.Expected;
      hide SnappyDecompressor.Valid, SnappyDecompressor.Rest;
      W.ReprSelf(w);
      ValidFacts();
      ok := PassChunk(w, limit - ip);
      if !ok {
        return;
      }
      ok := NextFragment();
      if ok { ValidFacts(); }
    }

    /** Pass n buffered bytes to the writer. */
    method PassChunk(w: W.Writer, n: nat) returns (ok: bool)
      requires Valid() && W.Valid(w) && Apart(w) && ip + n <= limit
      modifies this`ip, W.Repr(w)
      ensures Apart(w) && fresh(W.Repr(w) - old(W.Repr(w)))
      ensures n <= |old(Rest())| && ok == (|old(W.Contents(w))| + n <= old(W.Expected(w)))
      ensures ok ==> Valid() && W.Valid(w) && W.Expected(w) == old(W.Expected(w)) && ip == old(ip) + n
      ensures ok ==> Rest() == old(Rest())[n..] && W.Contents(w) == old(W.Contents(w)) + old(Rest())[..n]
    {
      hide Source.Valid, Source.Bytes, W.Valid, W.Contents, W.Expected;
      W.ReprSelf(w);
      Advance(n);
      ok := W.Append(w, buf[ip-n..ip]);
    }

    /** The fast path: the literal and a whole tag after it are buffered. */
    method FastLiteral(w: W.Writer, len: nat) returns (ok: bool)
      requires Valid() && W.Valid(w) && Apart(w)
      modifies this`ip, W.Repr(w)
      ensures Apart(w) && W.Repr(w) == old(W.Repr(w))
      ensures Valid() && W.Valid(w) && W.Expected(w) == old(W.Expected(w))
      ensures !ok ==> ip == old(ip) && Rest() == old(Rest()) && W.Contents(w) == old(W.Contents(w))
      ensures ok ==> len <= 16 && len <= |old(Rest())| && |old(W.Contents(w))| + len <= W.Expected(w)
      ensures ok ==> limit - ip >= MAXIMUM_TAG_LENGTH
      ensures ok ==> Rest() == old(Rest())[len..] && W.Contents(w) == old(W.Contents(w)) + old(Rest())[..len]
    {
      hide Source.Valid, Source.Bytes, W.Valid, W.Contents, W.Expected;
      W.ReprSelf(w);
      ok := W.TryFastAppend(w, buf, ip, limit - ip, len);
      W.ValidBounds(w);
      if ok {
        Advance(len);
      }
    }
  }

  lemma Rejoin(front: seq<byte>, s: seq<byte>)
    requires |front| <= |s| && s[..|front|] == front
    ensures front[0..|front|] + s[|front|..] == s
  {
    assert s == s[..|front|] + s[|front|..];
  }

  lemma Patch(t: seq<byte>, k: nat, add: seq<byte>)
    requires k + |add| <= |t|
    ensures var u := t[..k] + add + t[k+|add|..]; |u| == |t| && u[..k] == t[..k] && u[..k+|add|] == t[..k] + add
  {
  }

  lemma Stitched(was: seq<byte>, src: seq<byte>, rest: seq<byte>, n: nat)
    requires |was| <= |rest| && was == rest[..|was|] && n <= |src| <= |rest[|was|..]| && rest[|was|..][..|src|] == src
    ensures was + src[..n] == rest[..|was|+n] && rest[|was|..][n..] == rest[|was|+n..]
  {
    assert src[..n] == rest[|was|..][..n];
  }

  /** The first k bytes of rest are added to out. */
  ghost predicate Consumed(rest: seq<byte>, out: seq<byte>, k: int, now: seq<byte>, written: seq<byte>) {
    0 <= k <= |rest| && now == rest[k..] && written == out + rest[..k]
  }

  lemma ConsumedNone(rest: seq<byte>, out: seq<byte>)
    ensures Consumed(rest, out, 0, rest, out)
  {
  }

  lemma ConsumedMore(rest: seq<byte>, out: seq<byte>, k: int, now: seq<byte>, written: seq<byte>, n: nat)
    requires Consumed(rest, out, k, now, written)
    ensures |now| == |rest| - k && |written| == |out| + k
    ensures n <= |now| ==> Consumed(rest, out, k + n, now[n..], written + now[..n])
  {
    if n <= |now| { assert rest[..k] + now[..n] == rest[..k+n]; }
  }

  lemma ConsumedFacts(rest: seq<byte>, out: seq<byte>, k: int, now: seq<byte>, written: seq<byte>)
    requires Consumed(rest, out, k, now, written)
    ensures 0 <= k <= |rest| && now == rest[k..] && written == out + rest[..k]
  {
  }

  // ----- one tag of the stream

  function LiteralLength(s: seq<byte>): nat
    requires s != [] && s[0] % 4 == 0 && 1 + Extra(s[0]) <= |s|
  {
    if s[0] / 4 < 60 then s[0] / 4 + 1 else LongLength(s[1..1+Extra(s[0])])
  }

  /** What decoding does with a literal whose header is complete. */
  lemma LiteralStep(s: seq<byte>, out: seq<byte>, limit: nat)
    requires s != [] && s[0] % 4 == 0 && 1 + Extra(s[0]) <= |s|
    ensures var h, len := 1 + Extra(s[0]), LiteralLength(s);
            Decode(s, out, limit) == if |s| < h + len || |out| + len > limit then None
                                     else Decode(s[h+len..], out + s[h..h+len], limit)
  {
    hide LongLength, Extra, CopyFrom;
    ExtraBytes(s[0]);
  }

  function CopyOffset(s: seq<byte>): nat
    requires s != [] && 1 + Extra(s[0]) <= |s|
  {
    CharTable(s[0]) / 256 % 8 * 256 + LittleEndian(s[1..1+Extra(s[0])])
  }

  /** What decoding does with a complete copy tag, by the fields of the table. */
  lemma CopyStep(s: seq<byte>, out: seq<byte>, limit: nat)
    requires s != [] && s[0] % 4 != 0 && 1 + Extra(s[0]) <= |s|
    ensures var offset, len := CopyOffset(s), CharTable(s[0]) % 256;
            Decode(s, out, limit) == if offset == 0 || offset > |out| || |out| + len > limit then None
                                     else Decode(s[1+Extra(s[0])..], CopyFrom(out, offset, len), limit)
  {
    hide Extra, CharTable, CopyFrom, LittleEndian;
    ExtraBytes(s[0]);
    if s[0] % 4 == 1 {
      assert s[1..2] == [s[1]];
      LittleEndian1(s[1]);
    }
  }

  /** A stream that ends inside a tag header denotes nothing. */
  lemma TruncatedStep(s: seq<byte>, out: seq<byte>, limit: nat)
    requires s != [] && |s| < 1 + Extra(s[0])
    ensures Decode(s, out, limit) == None
  {
    hide Extra;
    ExtraBytes(s[0]);
  }

  lemma LittleEndianBound(s: seq<byte>)
    requires |s| <= 4
    ensures LittleEndian(s) < 0x1_0000_0000
  {
    if |s| == 1 { assert s == [s[0]]; LittleEndian1(s[0]); }
    if |s| == 2 { assert s == [s[0], s[1]]; LittleEndian2(s[0], s[1]); }
    if |s| == 3 { assert s[1..] == [s[1], s[2]]; LittleEndian2(s[1], s[2]); }
    if |s| == 4 { assert s == [s[0], s[1], s[2], s[3]]; LittleEndian4(s[0], s[1], s[2], s[3]); }
  }

  /** What is known once the tag byte c of the stream s has been taken. */
  ghost predicate Taken(d: SnappyDecompressor, s: seq<byte>, c: byte)
    reads d, d.reader
  {
    && |s| >= 1 + Extra(c) && s[0] == c && d.Valid() && !d.eof && d.Rest() == s[1..]
    && d.ip + Extra(c) <= d.limit && d.ip + 4 <= |d.buf|
  }

  method TakeTag(d: SnappyDecompressor) returns (c: byte)
    requires d.Valid() && d.Ready() && !d.eof
    modifies d`ip
    ensures Taken(d, old(d.Rest()), c)
  {
    hide Source.Valid, Source.Bytes, Extra;
    c := d.buf[d.ip];
    d.Advance(1);
  }

  /** A literal: the fast path, or its length and then its bytes. */
  method LiteralTag(d: SnappyDecompressor, w: W.Writer, c: byte, ghost s: seq<byte>) returns (ok: bool)
    requires Taken(d, s, c) && c % 4 == 0 && W.Valid(w) && d.Apart(w)
    modifies d, d.reader, W.Repr(w)
    ensures !d.eof && d.Apart(w) && fresh(W.Repr(w) - old(W.Repr(w)))
    ensures ok ==> d.Valid() && W.Valid(w) && W.Expected(w) == old(W.Expected(w)) && (d.Large() <==> old(d.Large()))
    ensures ok ==> |W.Contents(w)| == |old(W.Contents(w))| + LiteralLength(s)
    ensures ok && LiteralLength(s) == 0 ==>
              unchanged(d.reader) && d.seen == old(d.seen) && d.Rest() == s[1+Extra(c)..]
    ensures var h, len := 1 + Extra(c), LiteralLength(s);
            !old(d.Large()) ==>
              && ok == (|s| >= h + len && |old(W.Contents(w))| + len <= old(W.Expected(w)))
              && (ok ==> d.Rest() == s[h+len..] && W.Contents(w) == old(W.Contents(w)) + s[h..h+len])
  {
    hide Source.Valid, Source.Bytes, AnyLarge, Extra, CharTable, LongLength;
    hide W.Valid, W.Contents, W.Expected, SnappyDecompressor.Valid;
    ExtraBytes(c);
    W.ReprSelf(w);
    var literalLength := c / 4 + 1;
    ok := d.FastLiteral(w, literalLength);
    if ok {
      Slices(s, 1, literalLength);
      return;
    }
    var length := FullLength(d, c, s);
    ok := d.ReadLiteral(w, length);
    if ok && !d.Large() { Slices(s, 1 + Extra(c), length); }
  }

  lemma Slices(s: seq<byte>, h: nat, n: nat)
    requires h + n <= |s|
    ensures s[h..][..n] == s[h..h+n] && s[h..][n..] == s[h+n..]
  {
  }

  /** The length of a literal, from the tag byte or from the one to four bytes after it. */
  method FullLength(d: SnappyDecompressor, c: byte, ghost s: seq<byte>) returns (length: nat)
    requires Taken(d, s, c) && c % 4 == 0
    modifies d`ip
    ensures d.Valid() && !d.eof && d.Rest() == s[1+Extra(c)..] && length == LiteralLength(s)
  {
    hide Source.Valid, Source.Bytes, Extra, CharTable, LittleEndian, Load32;
    ExtraBytes(c);
    length := c / 4 + 1;
    if length >= 61 {
      var k := length - 60;
      MaskedLoad(d.buf, d.ip, k);
      Slices(s, 1, k);
      length := (Load32(d.buf, d.ip) % Mask(k) + 1) % 0x1_0000_0000;
      d.Advance(k);
    }
  }

  /** The bytes after a copy tag, as the masked word the code loads. */
  method Trailer(d: SnappyDecompressor, c: byte, extra: nat, ghost s: seq<byte>) returns (trailer: nat)
    requires Taken(d, s, c) && extra == Extra(c)
    modifies d`ip
    ensures d.Valid() && !d.eof && d.Rest() == s[1+extra..]
    ensures trailer == LittleEndian(s[1..1+extra]) < 0x1_0000_0000
  {
    hide Source.Valid, Source.Bytes, CharTable, LittleEndian, Load32;
    ExtraBytes(c);
    MaskedLoad(d.buf, d.ip, extra);
    Slices(s, 1, extra);
    LittleEndianBound(s[1..1+extra]);
    trailer := Load32(d.buf, d.ip) % Mask(extra);
    d.Advance(extra);
  }

  /** A copy: its fields come from the table and from the bytes after the tag. */
  method CopyTag(d: SnappyDecompressor, w: W.Writer, c: byte, ghost s: seq<byte>) returns (ok: bool)
    requires Taken(d, s, c) && c % 4 != 0 && W.Valid(w) && d.Apart(w)
    modifies d`ip, W.Repr(w)
    ensures d.Apart(w) && fresh(W.Repr(w) - old(W.Repr(w)))
    ensures var h, offset, len := 1 + Extra(c), CopyOffset(s), CharTable(c) % 256;
            && ok == (1 <= offset <= |old(W.Contents(w))| && |old(W.Contents(w))| + len <= old(W.Expected(w)))
            && (ok ==> d.Valid() && W.Valid(w) && W.Expected(w) == old(W.Expected(w))
                       && d.Rest() == s[h..] && W.Contents(w) == CopyFrom(old(W.Contents(w)), offset, len))
  {
    hide Source.Valid, Source.Bytes, AnyLarge, CharTable, LittleEndian, CopyFrom;
    hide W.Valid, W.Contents, W.Expected, SnappyDecompressor.Valid;
    ExtraBytes(c);
    W.ReprSelf(w);
    var entry := CharTable(c);
    var trailer := Trailer(d, c, entry / 2048, s);
    ok := W.AppendFromSelf(w, entry / 256 % 8 * 256 + trailer, entry % 256);
  }

  /** Decode one tag from the buffer and hand it to the writer. A tag adds to the output, except a literal
      whose length wrapped to zero. */
  method Step(d: SnappyDecompressor, w: W.Writer) returns (ok: bool)
    requires d.Valid() && d.Ready() && !d.eof && W.Valid(w) && d.Apart(w)
    modifies d, d.reader, W.Repr(w)
    ensures !d.eof && d.Apart(w) && fresh(W.Repr(w) - old(W.Repr(w)))
    ensures ok ==> d.Valid() && W.Valid(w) && W.Expected(w) == old(W.Expected(w)) && (d.Large() <==> old(d.Large()))
    ensures ok ==> |W.Contents(w)| > |old(W.Contents(w))|
                   || (|W.Contents(w)| == |old(W.Contents(w))| && |d.Rest()| < |old(d.Rest())|
                       && d.reader.Bytes() == old(d.reader.Bytes()) && d.Rewinds() == old(d.Rewinds()))
    ensures !old(d.Large()) ==>
              Decode(old(d.Rest()), old(W.Contents(w)), old(W.Expected(w)))
              == if ok then Decode(d.Rest(), W.Contents(w), old(W.Expected(w))) else None
  {
    hide Source.Valid, Source.Bytes, AnyLarge, Extra, CharTable, Decode, CopyFrom, W.Valid, W.Contents, W.Expected;
    W.ReprSelf(w);
    ghost var s := d.Rest();
    var c := TakeTag(d);
    if c % 4 == 0 {
      LiteralStep(s, W.Contents(w), W.Expected(w));
      ok := LiteralTag(d, w, c, s);
    } else {
      CopyStep(s, W.Contents(w), W.Expected(w));
      CopyGrows(c, W.Contents(w), CopyOffset(s));
      ok := CopyTag(d, w, c, s);
    }
  }

  lemma CopyGrows(c: byte, out: seq<byte>, offset: nat)
    requires c % 4 != 0
    ensures 1 <= offset <= |out| ==> |CopyFrom(out, offset, CharTable(c) % 256)| > |out|
  {
    hide CharTable;
    ExtraBytes(c);
  }

  /** Decode the whole stream. The end of the input on a tag boundary sets eof, and nothing else does; no end
      is reached while a fragment is too long for the counter. */
  method DecompressAllTags(d: SnappyDecompressor, w: W.Writer) returns (endless: bool)
    requires d.Valid() && !d.eof && W.Valid(w) && d.Apart(w)
    modifies d, d.reader, W.Repr(w)
    ensures endless ==> old(d.Large())
    ensures d.eof == (!old(d.Large()) && Decode(old(d.Rest()), old(W.Contents(w)), old(W.Expected(w))).Some?)
    ensures d.eof ==> W.Valid(w) && W.Expected(w) == old(W.Expected(w))
                      && W.Contents(w) == Decode(old(d.Rest()), old(W.Contents(w)), old(W.Expected(w))).value
  {
    hide Source.Valid, Source.Bytes, AnyLarge, Extra, Parse, Decode, CopyFrom, W.Valid, W.Contents, W.Expected;
    hide SnappyDecompressor.Valid, SnappyDecompressor.Ready, SnappyDecompressor.Rest, SnappyDecompressor.Rewinds;
    W.ReprSelf(w);
    ghost var expected, large := W.Expected(w), d.Large();
    ghost var target := Decode(d.Rest(), W.Contents(w), expected);
    ghost var rest := d.Rest();
    var refill := d.MaybeRefill();
    if !refill.Filled? {
      if !large { Ended(rest, W.Contents(w), expected, d.eof); }
      return refill.Stuck?;
    }
    while true
      invariant d.Valid() && d.Ready() && !d.eof && W.Valid(w) && d.Apart(w) && W.Expected(w) == expected
      invariant d.Large() <==> large
      invariant !large ==> target == Decode(d.Rest(), W.Contents(w), expected)
      invariant fresh(W.Repr(w) - old(W.Repr(w)))
      decreases expected - |W.Contents(w)|, |d.reader.Bytes()|, d.Rewinds(), |d.Rest()|
    {
      W.ValidBounds(w);
      var ok := Step(d, w);
      if !ok {
        return false;
      }
      W.ValidBounds(w);
      rest := d.Rest();
      refill := d.MaybeRefill();
      if !refill.Filled? {
        if !large { Ended(rest, W.Contents(w), expected, d.eof); }
        return refill.Stuck?;
      }
    }
  }

  lemma Ended(rest: seq<byte>, out: seq<byte>, limit: nat, eof: bool)
    requires eof ==> rest == []
    requires !eof ==> rest != [] && |rest| < 1 + Extra(rest[0])
    ensures Decode(rest, out, limit) == if eof then Some(out) else None
  {
    hide Extra;
    if !eof { TruncatedStep(rest, out, limit); }
  }

  /** How a decompression comes out: it may also go round forever. */
  datatype Verdict = Accepted | Refused | Endless

  /** The tags after the length prefix, into any writer. */
  method InternalUncompressAllTags(d: SnappyDecompressor, w: W.Writer, n: nat) returns (r: Verdict)
    requires d.Valid() && !d.eof && W.Empty(w) && d.Apart(w) && W.CanHold(w, n)
    modifies d, d.reader, W.Repr(w)
    ensures r.Endless? ==> old(d.Large())
    ensures var out := Decode(old(d.Rest()), [], n);
            && (r.Accepted? <==> !old(d.Large()) && out.Some? && |out.value| == n)
            && (r.Accepted? ==> W.Valid(w) && W.Contents(w) == out.value && W.Expected(w) == n)
  {
    hide Source.Valid, Source.Bytes, AnyLarge, Decode, W.Empty, W.Valid, W.Contents, W.Expected, W.CanHold;
    W.ReprSelf(w);
    W.SetExpectedLength(w, n);
    var endless := DecompressAllTags(d, w);
    if endless {
      return Endless;
    }
    if !d.eof {
      return Refused;
    }
    var complete := W.CheckLength(w);
    return if complete then Accepted else Refused;
  }

  /** The fragments of the source once the length prefix is read. */
  ghost function BodyFragments(frags: seq<seq<byte>>): seq<seq<byte>> {
    var prefix := Varint(Flatten(frags));
    if prefix.None? then [] else Drop(frags, prefix.value.1)
  }

  /** Decompression of any source into any writer. With no fragment too long for the counter the result depends
      only on the concatenated bytes; with one it never succeeds. */
  method InternalUncompress(source: Source, w: W.Writer) returns (r: Verdict)
    requires source.Valid() && W.Empty(w) && source !in W.Repr(w)
    requires Varint(source.Bytes()).Some? ==> W.CanHold(w, Varint(source.Bytes()).value.0)
    modifies source, W.Repr(w)
    ensures r.Endless? ==> AnyLarge(BodyFragments(old(source.frags)))
    ensures r.Accepted? <==> Uncompressed(old(source.Bytes())).Some? && !AnyLarge(BodyFragments(old(source.frags)))
    ensures r.Accepted? ==> W.Valid(w) && W.Contents(w) == Uncompressed(old(source.Bytes())).value
                            && W.Expected(w) == |W.Contents(w)|
  {
    hide Source.Valid, AnyLarge, Decode, VarintAt, Varint, W.Empty, W.Valid, W.Contents, W.Expected, W.CanHold;
    W.ReprSelf(w);
    var d := new SnappyDecompressor(source);
    assert d !in W.Repr(w);
    var n := d.ReadUncompressedLength();
    if n.None? {
      return Refused;
    }
    r := InternalUncompressAllTags(d, w, n.value);
  }

  /** A value that does not survive the 32-bit shift has bits above the fourth in the last group. */
  lemma ShiftLost(val: nat, k: nat)
    requires k <= 4 && val < 128 && val * GroupUnit(k) % VARINT_LIMIT / GroupUnit(k) != val
    ensures k == 4 && val >= 16
  {
  }

  lemma ShiftKept(val: nat)
    requires val < 128 && val * GroupUnit(4) % VARINT_LIMIT / GroupUnit(4) == val
    ensures val < 16
  {
  }
}

/** Compression of a whole source, block by block. */
module SnappyBlocks {
  import opened Words
  import opened Bytes
  import opened SnappyFormat
  import opened SnappyStream
  import opened SnappyCompress
  import opened SnappySource

  const MAX_HASH_TABLE_BITS := 14

  function Scramble(bytes: nat): (x: nat)
    ensures x < 0x1_0000_0000
  {
    bytes * 0x1e35a7bd % 0x1_0000_0000
  }

  function HashBytes(bytes: nat, shift: nat): nat {
    DivNatural(Scramble(bytes), Pow2(shift));
    Scramble(bytes) / Pow2(shift)
  }

  lemma DivNatural(x: nat, p: nat)
    requires p > 0
    ensures x / p >= 0
  {
  }

  lemma HashRange(bytes: nat, bits: nat)
    requires bits <= 32
    ensures HashBytes(bytes, 32 - bits) < Pow2(bits)
  {
    hide Pow2, Scramble;
    Pow2Add(bits, 32 - bits);
    Pow2Word();
    DivBelow(Scramble(bytes), Pow2(32 - bits), Pow2(bits));
  }

  /** The hash is the top bits of a 32-bit product. */
  lemma HashIs(bytes: nat, shift: nat)
    ensures HashBytes(bytes, shift) == bytes * 506832829 % 4294967296 / Pow2(shift)
  {
    hide Pow2;
  }

  lemma DivBelow(x: nat, p: nat, q: nat)
    requires p > 0 && x < q * p
    ensures x / p < q
  {
  }

  lemma Pow2Word()
    ensures Pow2(32) == 0x1_0000_0000
  {
    hide Pow2;
    Pow2Byte();
    Pow2Add(8, 8);
    Pow2Add(16, 16);
  }

  /** A zeroed table of a power-of-two size suited to the input. */
  method GetHashTable(inputSize: nat) returns (table: array<nat>, bits: nat)
    ensures fresh(table) && 8 <= bits <= MAX_HASH_TABLE_BITS && table.Length == Pow2(bits)
    ensures Before(table, 1)
    ensures bits == MAX_HASH_TABLE_BITS || inputSize <= Pow2(bits)
    ensures bits == 8 || Pow2(bits - 1) < inputSize
  {
    hide Pow2;
    Pow2Byte();
    var htsize := 256;
    bits := 8;
    while bits < MAX_HASH_TABLE_BITS && htsize < inputSize
      invariant htsize == Pow2(bits) && 8 <= bits <= MAX_HASH_TABLE_BITS
      invariant bits == 8 || Pow2(bits - 1) < inputSize
    {
      htsize := htsize * 2;
      Pow2Next(bits);
      bits := bits + 1;
    }
    table := new nat[htsize](_ => 0);
  }

  lemma Pow2Next(n: nat)
    ensures Pow2(n + 1) == 2 * Pow2(n)
  {
  }

  // ----- joining the blocks

  lemma {:induction false} StreamJoin(ts: seq<Tag>, us: seq<Tag>, out: seq<byte>)
    requires AllEncodable(ts) && AllEncodable(us)
    ensures AllEncodable(ts + us) && StreamBytes(ts + us) == StreamBytes(ts) + StreamBytes(us)
    ensures Expand(ts, out).Good? ==> Expand(ts + us, out) == Expand(us, Expand(ts, out).out)
  {
    hide TagBytes, Encodable, Apply;
    if us == [] {
      assert ts + us == ts;
    } else {
      var before, u := us[..|us|-1], us[|us|-1];
      StreamJoin(ts, before, out);
      ExpandAppend(ts + before, u, out);
      assert ts + us == ts + before + [u];
    }
  }

  /** The tags for the first done bytes, and their share of the size bound. */
  ghost predicate BlocksDone(ts: seq<Tag>, input: seq<byte>, done: nat) {
    && done <= |input| && AllEncodable(ts) && Expand(ts, []) == Good(input[..done])
    && |StreamBytes(ts)| <= done + done / 6 + (if done == |input| then 1 else 0)
  }

  lemma BlockStep(ts: seq<Tag>, us: seq<Tag>, input: seq<byte>, done: nat, n: nat)
    requires BlocksDone(ts, input, done) && done < |input|
             && n == (if |input| - done < BLOCK_SIZE then |input| - done else BLOCK_SIZE)
    requires AllEncodable(us) && Expand(us, []) == Good(input[done..done+n]) && |StreamBytes(us)| <= n + n / 60 + 1
    ensures BlocksDone(ts + us, input, done + n)
  {
    hide Expand, StreamBytes;
    StreamJoin(ts, us, []);
    ExpandPrefix(us, input[..done]);
    assert input[..done] + input[done..done+n] == input[..done+n];
  }

  /** A string denotes at most one value, and its length is the one in the prefix. */
  lemma PrefixLength(n: nat, rest: seq<byte>)
    requires n < VARINT_LIMIT
    ensures var d := Decode(rest, [], n);
            Uncompressed(Encode32(n) + rest) == if d.Some? && |d.value| == n then d else None
  {
    hide Encode32, Varint, VarintAt, Decode;
    VarintRoundTrip(n, rest);
    assert (Encode32(n) + rest)[|Encode32(n)|..] == rest;
  }

  /** A prefix and a finished stream decode to the input, unless its length was cut to 32 bits. */
  lemma StreamDecodes(ts: seq<Tag>, input: seq<byte>)
    requires BlocksDone(ts, input, |input|)
    ensures Uncompressed(Encode32(|input| % VARINT_LIMIT) + StreamBytes(ts)) == Some(input) <==> |input| < VARINT_LIMIT
  {
    hide Expand, StreamBytes, Encode32, Varint, VarintAt, Uncompressed, Decode;
    var n := |input|;
    PrefixLength(n % VARINT_LIMIT, StreamBytes(ts));
    if n < VARINT_LIMIT {
      assert input[..n] == input;
      assert StreamBytes(ts) + [] == StreamBytes(ts);
      DecodeStream(ts, [], [], n);
      DecodeNothing(input, n);
    }
  }

  lemma DecodeNothing(out: seq<byte>, n: nat)
    ensures Decode([], out, n) == Some(out)
  {
  }

  lemma StreamSize(ts: seq<Tag>, input: seq<byte>)
    requires BlocksDone(ts, input, |input|)
    ensures |Encode32(|input| % VARINT_LIMIT) + StreamBytes(ts)| <= MaxCompressedLength(|input|)
  {
    hide Expand, StreamBytes;
  }

  // ----- reading one block

  /** The next n bytes of the source: directly from a large enough fragment, or stitched together. */
  method ReadBlock(reader: Source, n: nat) returns (block: seq<byte>, pending: nat)
    requires reader.Valid() && 1 <= n <= |reader.Bytes()|
    modifies reader
    ensures block == old(reader.Bytes())[..n] && reader.Valid() && pending <= |Front(reader.frags)|
    ensures pending <= |reader.Bytes()| && reader.Bytes()[pending..] == old(reader.Bytes())[n..]
  {
    hide Source.Valid, Source.Bytes;
    ghost var all := reader.Bytes();
    reader.FrontOfBytes();
    var fragment := reader.Peek();
    if |fragment| >= n {
      block := fragment[..n];
      return block, n;
    }
    var scratch := fragment;
    reader.Skip(|fragment|);
    while |scratch| < n
      invariant reader.Valid() && |scratch| <= n && scratch == all[..|scratch|] && reader.Bytes() == all[|scratch|..]
      decreases n - |scratch|
    {
      reader.FrontOfBytes();
      fragment := reader.Peek();
      var take := if |fragment| < n - |scratch| then |fragment| else n - |scratch|;
      assert all[..|scratch|+take] == all[..|scratch|] + all[|scratch|..][..take];
      assert fragment[..take] == all[|scratch|..][..take] by {
        assert fragment == all[|scratch|..][..|fragment|];
      }
      scratch := scratch + fragment[..take];
      reader.Skip(take);
    }
    return scratch, 0;
  }

  /** One block with a table of its own size. */
  method CompressBlock(fragment: seq<byte>, dst: array<byte>) returns (piece: seq<byte>, ghost ts: seq<Tag>)
    requires |fragment| <= BLOCK_SIZE && dst.Length >= MaxCompressedLength(|fragment|)
    modifies dst
    ensures AllEncodable(ts) && piece == StreamBytes(ts) && Expand(ts, []) == Good(fragment)
    ensures |piece| <= |fragment| + |fragment| / 60 + 1 && Begun(fragment, ts)
  {
    hide Expand, StreamBytes, Pow2, Begun, AllEncodable, Written;
    var table, bits := GetHashTable(|fragment|);
    var hash := (v: nat) => HashBytes(v, 32 - bits);
    assert HashInto(hash, table.Length) by {
      forall v: nat ensures hash(v) < table.Length { HashRange(v, bits); }
    }
    var op;
    op, ts := CompressFragment(fragment, dst, table, hash);
    WrittenLength(dst, op, ts);
    WrittenBytes(dst, op, ts);
    piece := dst[..op];
  }

  /** Compression of a whole source: what comes out denotes what went in, provided the length fits the
      32 bits of the prefix, and fits the advertised bound, length prefix included. */
  method Compress(reader: Source) returns (out: seq<byte>)
    requires reader.Valid()
    modifies reader
    ensures Uncompressed(out) == Some(old(reader.Bytes())) <==> |old(reader.Bytes())| < VARINT_LIMIT
    ensures |out| <= MaxCompressedLength(|old(reader.Bytes())|)
    ensures reader.Bytes() == []
  {
    hide Expand, StreamBytes, Encode32, Uncompressed, BlocksDone, Begun, AllEncodable, MaxCompressedLength;
    hide Source.Valid, Source.Bytes;
    ghost var input := reader.Bytes();
    var left := reader.Available();
    var total := left;
    out := Encode32(left % VARINT_LIMIT);
    ghost var ts: seq<Tag> := [];
    ghost var done := 0;
    NothingDone(input);
    assert input[0..] == input;
    var dst := new byte[MaxCompressedLength(if left < BLOCK_SIZE then left else BLOCK_SIZE)](_ => 0);
    while left > 0
      invariant done >= 0 && 0 <= left == |input| - done && AllEncodable(ts) && BlocksDone(ts, input, done)
      invariant out == Encode32(total % VARINT_LIMIT) + StreamBytes(ts) && total == |input|
      invariant reader.Valid() && reader.Bytes() == input[done..]
      invariant fresh(dst) && dst.Length >= MaxCompressedLength(if left < BLOCK_SIZE then left else BLOCK_SIZE)
      decreases left
    {
      var n := if left < BLOCK_SIZE then left else BLOCK_SIZE;
      var fragment, pending := ReadBlock(reader, n);
      assert fragment == input[done..done+n];
      var piece, us := CompressBlock(fragment, dst);
      StreamJoin(ts, us, []);
      BlockStep(ts, us, input, done, n);
      out := out + piece;
      ts := ts + us;
      assert input[done..][n..] == input[done+n..];
      done := done + n;
      left := left - n;
      RoomStays(if left < BLOCK_SIZE then left else BLOCK_SIZE, n);
      reader.Skip(pending);
    }
    StreamDecodes(ts, input);
    StreamSize(ts, input);
  }

  lemma RoomStays(m: nat, n: nat)
    requires m <= n
    ensures MaxCompressedLength(m) <= MaxCompressedLength(n)
  {
  }

  lemma NothingDone(input: seq<byte>)
    ensures BlocksDone([], input, 0) && StreamBytes([]) == []
  {
    assert input[..0] == [];
  }

  lemma WrittenBytes(dst: array<byte>, op: nat, ts: seq<Tag>)
    requires Written(dst, op, ts)
    ensures op <= dst.Length && AllEncodable(ts) && dst[..op] == StreamBytes(ts)
  {
  }
}

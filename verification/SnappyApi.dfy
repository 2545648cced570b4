/** The public entry points: flat, scattered and validating decompression, and the round trip. */
module SnappyApi {
  import opened Words
  import opened Bytes
  import opened SnappyFormat
  import opened SnappyFlatWriters
  import opened SnappyScatteredWriter
  import opened SnappySource
  import opened SnappyBlocks
  import opened SnappyCompress
  import opened SnappyDecompress
  import IOV = SnappyIOVecWriter
  import W = SnappyWriters

  /** The room the caller must provide, by the length prefix. */
  ghost predicate Fits(compressed: seq<byte>, room: nat) {
    Varint(compressed).Some? ==> Varint(compressed).value.0 <= room
  }

  method GetUncompressedLength(compressed: seq<byte>) returns (r: Option<nat>)
    ensures r.Some? <==> Varint(compressed).Some?
    ensures r.Some? ==> r.value == Varint(compressed).value.0
    ensures Uncompressed(compressed).Some? ==> r == Some(|Uncompressed(compressed).value|)
  {
    hide Varint, Decode;
    var v := Parse32WithLimit(compressed);
    r := if v.None? then None else Some(v.value.0);
  }

  lemma PrefixBound(s: seq<byte>)
    requires Varint(s).Some?
    ensures Varint(s).value.0 < SIZE_LIMIT
  {
    VarintBounds(s, 0);
  }

  /** No fragment after the length prefix is too long for a 32-bit counter. */
  ghost predicate Countable(frags: seq<seq<byte>>) { !AnyLarge(BodyFragments(frags)) }

  /** The same of a flat buffer. */
  ghost predicate BodyCountable(compressed: seq<byte>) {
    Varint(compressed).Some? ==> |compressed| - Varint(compressed).value.1 < COUNTER_LIMIT
  }

  lemma FlatCountable(compressed: seq<byte>)
    ensures Countable(Whole(compressed)) <==> BodyCountable(compressed)
  {
    hide Varint;
    FlattenOne(compressed);
    if Varint(compressed).Some? {
      var k := Varint(compressed).value.1;
      PrefixWithin(compressed);
      assert [compressed][1..] == [];
      if k < |compressed| {
        assert BodyFragments(Whole(compressed)) == [compressed[k..]];
        assert |BodyFragments(Whole(compressed))[0]| == |compressed| - k;
      } else {
        assert Drop([compressed], k) == Drop([compressed][1..], 0) == [];
      }
    }
  }

  lemma PrefixWithin(s: seq<byte>)
    requires Varint(s).Some?
    ensures 1 <= Varint(s).value.1 <= |s|
  {
    VarintBounds(s, 0);
  }

  method RawUncompress(source: Source, dst: array<byte>) returns (r: Verdict)
    requires source.Valid() && Fits(source.Bytes(), dst.Length)
    modifies source, dst
    ensures r.Accepted? <==> Uncompressed(old(source.Bytes())).Some? && Countable(old(source.frags))
    ensures r.Endless? ==> !Countable(old(source.frags))
    ensures r.Accepted? ==>
              var out := Uncompressed(old(source.Bytes())).value; |out| <= dst.Length && dst[..|out|] == out
  {
    hide Uncompressed, Varint, BodyFragments, AnyLarge, Source.Bytes, Source.Valid;
    if Varint(source.Bytes()).Some? { PrefixBound(source.Bytes()); }
    var a := new SnappyArrayWriter(dst);
    r := InternalUncompress(source, W.Flat(a));
  }

  /** Decompression of a flat string: accepts exactly the strings that denote something and whose tags take
      less than 2^32 bytes, and refuses every shorter string that denotes nothing. */
  method Uncompress(compressed: seq<byte>) returns (r: Verdict, uncompressed: seq<byte>)
    ensures r.Accepted? <==> Uncompressed(compressed).Some? && BodyCountable(compressed)
    ensures r.Endless? ==> !BodyCountable(compressed)
    ensures r.Accepted? ==> uncompressed == Uncompressed(compressed).value
  {
    hide Uncompressed, Varint, Countable, BodyCountable, Source.Bytes, Source.Valid;
    var ulength := GetUncompressedLength(compressed);
    if ulength.None? {
      NoPrefix(compressed);
      return Refused, [];
    }
    var dst := new byte[ulength.value](_ => 0);
    var reader := new Source.Flat(compressed);
    FlatCountable(compressed);
    r := RawUncompress(reader, dst);
    uncompressed := dst[..];
  }

  lemma NoPrefix(s: seq<byte>)
    requires Varint(s).None?
    ensures Uncompressed(s).None?
  {
  }

  /** A literal whose four length bytes are all ones, k times over. */
  function Wrapped(k: nat): (s: seq<byte>)
    ensures |s| == 5 * k
  {
    if k == 0 then [] else [0xFC, 0xFF, 0xFF, 0xFF, 0xFF] + Wrapped(k - 1)
  }

  lemma {:induction false} WrappedDecode(k: nat)
    ensures Decode(Wrapped(k), [], 0) == Some([])
  {
    if k > 0 {
      var s := Wrapped(k);
      assert s[1..5] == [0xFF, 0xFF, 0xFF, 0xFF];
      LittleEndian4(0xFF, 0xFF, 0xFF, 0xFF);
      assert Parse(s) == Parsed(Literal([]), 5);
      assert s[5..] == Wrapped(k - 1);
      WrappedDecode(k - 1);
    }
  }

  /** The length of such a literal wraps to zero, so these strings denote the empty string; they decompress
      until their tags take 2^32 bytes. */
  method WrappedLiterals(k: nat) returns (r: Verdict, out: seq<byte>)
    ensures Uncompressed([0] + Wrapped(k)) == Some([])
    ensures r.Accepted? <==> 5 * k < COUNTER_LIMIT
    ensures r.Accepted? ==> out == []
  {
    hide Decode, Wrapped;
    var s := [0] + Wrapped(k);
    WrappedDecode(k);
    assert Varint(s) == Some((0, 1));
    assert s[1..] == Wrapped(k) && |Wrapped(k)| == 5 * k by { WrappedSize(k); }
    r, out := Uncompress(s);
  }

  lemma WrappedSize(k: nat)
    ensures |Wrapped(k)| == 5 * k
  {
  }

  /** Decompression into a list of buffers: byte p of the output is where the buffers' lengths put it. */
  method RawUncompressToIOVec(source: Source, buffers: seq<array<byte>>) returns (r: Verdict)
    requires source.Valid() && Fits(source.Bytes(), IOV.Start(buffers, |buffers|))
    requires forall i, j :: 0 <= i < j < |buffers| ==> buffers[i] != buffers[j]
    modifies source, buffers
    ensures r.Accepted? <==> Uncompressed(old(source.Bytes())).Some? && Countable(old(source.frags))
    ensures r.Endless? ==> !Countable(old(source.frags))
    ensures r.Accepted? ==> Held(buffers, Uncompressed(old(source.Bytes())).value)
  {
    hide Uncompressed, Varint, BodyFragments, AnyLarge, Source.Bytes, Source.Valid;
    hide IOV.Start, IOV.IOVecWriter.Valid, Held;
    if Varint(source.Bytes()).Some? { PrefixBound(source.Bytes()); }
    var v := new IOV.IOVecWriter(buffers);
    r := InternalUncompress(source, W.IOVec(v));
    if r.Accepted? { AllHeld(v); }
  }

  ghost predicate Held(buffers: seq<array<byte>>, s: seq<byte>)
    reads buffers
  {
    forall k, i :: 0 <= k < |buffers| && 0 <= i < buffers[k].Length && IOV.Start(buffers, k) + i < |s|
                   ==> buffers[k][i] == s[IOV.Start(buffers, k) + i]
  }

  lemma AllHeld(v: IOV.IOVecWriter)
    requires v.Valid()
    ensures Held(v.iov, v.contents)
  {
    v.Placed();
  }

  /** The validator accepts exactly the sources that decompress, without producing anything. */
  method IsValidCompressed(source: Source) returns (r: Verdict)
    requires source.Valid()
    modifies source
    ensures r.Accepted? <==> Uncompressed(old(source.Bytes())).Some? && Countable(old(source.frags))
    ensures r.Endless? ==> !Countable(old(source.frags))
  {
    hide Uncompressed, Varint, BodyFragments, AnyLarge, Source.Bytes, Source.Valid;
    if Varint(source.Bytes()).Some? { PrefixBound(source.Bytes()); }
    var v := new SnappyDecompressionValidator();
    r := InternalUncompress(source, W.Validating(v));
  }

  /** Decompression into a sink: through one flat buffer if the sink grants enough room, else block by block. */
  method UncompressToSink(source: Source, allocatedSize: nat) returns (r: Verdict, sink: seq<byte>)
    requires source.Valid()
    modifies source
    ensures r.Accepted? <==> Uncompressed(old(source.Bytes())).Some? && Countable(old(source.frags))
    ensures r.Endless? ==> !Countable(old(source.frags))
    ensures r.Accepted? ==> sink == Uncompressed(old(source.Bytes())).value
  {
    hide Varint, Decode, AnyLarge, Source.Valid;
    if Varint(source.Bytes()).Some? { PrefixBound(source.Bytes()); }
    var d := new SnappyDecompressor(source);
    var n := d.ReadUncompressedLength();
    if n.None? {
      return Refused, [];
    }
    if allocatedSize >= n.value {
      r, sink := ThroughBuffer(d, n.value, allocatedSize);
    } else {
      r, sink := BlockByBlock(d, n.value);
    }
  }

  method ThroughBuffer(d: SnappyDecompressor, n: nat, room: nat) returns (r: Verdict, sink: seq<byte>)
    requires d.Valid() && !d.eof && n <= room && n < SIZE_LIMIT
    modifies d, d.reader
    ensures var out := Decode(old(d.Rest()), [], n);
            && (r.Accepted? <==> out.Some? && |out.value| == n && !old(d.Large()))
            && (r.Accepted? ==> sink == out.value) && (r.Endless? ==> old(d.Large()))
  {
    hide Decode, AnyLarge, Source.Bytes, Source.Valid, SnappyDecompressor.Valid;
    var buf := new byte[room](_ => 0);
    var a := new SnappyArrayWriter(buf);
    r := InternalUncompressAllTags(d, W.Flat(a), n);
    sink := if r.Accepted? then buf[..a.op] else [];
  }

  method BlockByBlock(d: SnappyDecompressor, n: nat) returns (r: Verdict, sink: seq<byte>)
    requires d.Valid() && !d.eof && n < SIZE_LIMIT
    modifies d, d.reader
    ensures var out := Decode(old(d.Rest()), [], n);
            && (r.Accepted? <==> out.Some? && |out.value| == n && !old(d.Large()))
            && (r.Accepted? ==> sink == out.value) && (r.Endless? ==> old(d.Large()))
  {
    hide Decode, AnyLarge, Source.Bytes, Source.Valid, SnappyDecompressor.Valid;
    var s := new ScatteredWriter();
    r := InternalUncompressAllTags(d, W.Scattered(s), n);
    sink := [];
    if r.Accepted? { sink := s.Flush(); }
  }

  /** The round trip, for every input and however it is cut into fragments: decompressing what was compressed
      gives it back if and only if its length fits the prefix and its tags fit the counter. The second holds of
      every input whose advertised maximum fits. */
  method RoundTrip(input: Source) returns (compressed: seq<byte>, r: Verdict, out: seq<byte>, valid: Verdict)
    requires input.Valid()
    modifies input
    ensures r.Accepted? && out == old(input.Bytes())
            <==> |old(input.Bytes())| < VARINT_LIMIT && BodyCountable(compressed)
    ensures |old(input.Bytes())| < VARINT_LIMIT ==> (valid.Accepted? <==> BodyCountable(compressed))
    ensures MaxCompressedLength(|old(input.Bytes())|) < COUNTER_LIMIT ==> BodyCountable(compressed)
  {
    hide Uncompressed, Varint, Countable, Source.Bytes, Source.Valid;
    compressed := Compress(input);
    r, out := Uncompress(compressed);
    var again := new Source.Flat(compressed);
    FlatCountable(compressed);
    valid := IsValidCompressed(again);
    if Varint(compressed).Some? { PrefixWithin(compressed); }
  }
}

/** Tags as the compressor writes them, what a list of tags expands to, and how long it is. */
module SnappyStream {
  import opened Bytes
  import opened SnappyFormat
  import opened SnappyCopy

  /** Blocks of the compressor; positions and offsets fit in sixteen bits. */
  const BLOCK_SIZE := 0x1_0000

  /** The tags the compressor writes. */
  predicate Encodable(t: Tag) {
    match t
    case Literal(data) => 1 <= |data| <= BLOCK_SIZE
    case Copy(offset, len) => 1 <= offset < BLOCK_SIZE && 4 <= len <= 64
  }

  /** Little-endian bytes of a length, without leading zeros. */
  function LengthBytes(n: nat): seq<byte> {
    if n == 0 then [] else [n % 256] + LengthBytes(n / 256)
  }

  function LiteralHeader(len: nat): seq<byte>
    requires 1 <= len <= BLOCK_SIZE
  {
    var n := len - 1;
    if n < 60 then [4 * n] else LengthBytesShort(n); [4 * (59 + |LengthBytes(n)|)] + LengthBytes(n)
  }

  lemma LengthBytesShort(n: nat)
    requires n < BLOCK_SIZE
    ensures LengthBytes(n) == if n == 0 then [] else if n < 256 then [n as byte] else [n % 256, n / 256]
    ensures LittleEndian(LengthBytes(n)) == n
  {
    if 0 < n < 256 {
      assert n / 256 == 0;
      LittleEndian1(n);
    } else if n >= 256 {
      assert LengthBytes(n / 256) == [(n / 256) as byte] by { assert n / 256 / 256 == 0; }
      LittleEndian2(n % 256, n / 256);
    }
  }

  function CopyBytes(offset: nat, len: nat): (r: seq<byte>)
    requires offset < BLOCK_SIZE && 4 <= len <= 64
    ensures |r| == if len < 12 && offset < 2048 then 2 else 3
  {
    if len < 12 && offset < 2048 then [1 + 4 * (len - 4) + 32 * (offset / 256), offset % 256]
    else [2 + 4 * (len - 1), offset % 256, offset / 256]
  }

  function TagBytes(t: Tag): seq<byte>
    requires Encodable(t)
  {
    match t
    case Literal(data) => LiteralHeader(|data|) + data
    case Copy(offset, len) => CopyBytes(offset, len)
  }

  /** Parsing gives back the tag that was written, whatever follows it. */
  lemma ParseTag(t: Tag, rest: seq<byte>)
    requires Encodable(t)
    ensures Parse(TagBytes(t) + rest) == Parsed(t, |TagBytes(t)|)
  {
    match t
    case Literal(data) => ParseLiteral(data, rest);
    case Copy(offset, len) => ParseCopy(offset, len, rest);
  }

  lemma ParseLiteral(data: seq<byte>, rest: seq<byte>)
    requires 1 <= |data| <= BLOCK_SIZE
    ensures Parse(LiteralHeader(|data|) + data + rest) == Parsed(Literal(data), |LiteralHeader(|data|)| + |data|)
  {
    hide LittleEndian;
    var n, h := |data| - 1, LiteralHeader(|data|);
    var s := h + data + rest;
    LengthBytesShort(n);
    if n >= 60 {
      var extra := |LengthBytes(n)|;
      assert s[0] == 4 * (59 + extra) && s[1..1+extra] == LengthBytes(n);
    } else {
      assert s[0] == 4 * n;
    }
    assert s[|h|..|h|+|data|] == data;
  }

  lemma ParseCopy(offset: nat, len: nat, rest: seq<byte>)
    requires 1 <= offset < BLOCK_SIZE && 4 <= len <= 64
    ensures Parse(CopyBytes(offset, len) + rest) == Parsed(Copy(offset, len), |CopyBytes(offset, len)|)
  {
    hide LittleEndian;
    var b := CopyBytes(offset, len);
    var s := b + rest;
    if len < 12 && offset < 2048 {
      var c: int := s[0];
      assert c == 4 * (len - 4 + 8 * (offset / 256)) + 1;
      assert c % 4 == 1 && c / 4 == len - 4 + 8 * (offset / 256);
      assert c / 4 % 8 == len - 4 && c / 32 == offset / 256;
    } else {
      assert s[1..3] == [offset % 256, offset / 256];
      LittleEndian2(offset % 256, offset / 256);
    }
  }

  // ----- lists of tags

  function StreamBytes(ts: seq<Tag>): seq<byte>
    requires AllEncodable(ts)
  {
    if ts == [] then [] else StreamBytes(ts[..|ts|-1]) + TagBytes(ts[|ts|-1])
  }

  predicate AllEncodable(ts: seq<Tag>) { forall i :: 0 <= i < |ts| ==> Encodable(ts[i]) }

  predicate Applicable(t: Tag, out: seq<byte>) { t.Copy? ==> 1 <= t.offset <= |out| }

  function Apply(t: Tag, out: seq<byte>): (r: seq<byte>)
    requires Applicable(t, out)
    ensures |r| >= |out|
  {
    match t
    case Literal(data) => out + data
    case Copy(offset, len) => CopyFrom(out, offset, len)
  }

  /** What a list of tags expands to after the output so far, if every copy finds its source. */
  datatype Expansion = Bad | Good(out: seq<byte>)

  function Expand(ts: seq<Tag>, out: seq<byte>): Expansion {
    if ts == [] then Good(out)
    else match Expand(ts[..|ts|-1], out)
      case Bad => Bad
      case Good(o) => if Applicable(ts[|ts|-1], o) then Good(Apply(ts[|ts|-1], o)) else Bad
  }

  lemma ExpandAppend(ts: seq<Tag>, t: Tag, out: seq<byte>)
    ensures Expand(ts + [t], out) == match Expand(ts, out)
                                      case Bad => Bad
                                      case Good(o) => if Applicable(t, o) then Good(Apply(t, o)) else Bad
    ensures AllEncodable(ts) && Encodable(t) ==>
              AllEncodable(ts + [t]) && StreamBytes(ts + [t]) == StreamBytes(ts) + TagBytes(t)
  {
    assert (ts + [t])[..|ts|] == ts;
  }

  /** Decoding the bytes of a tag list does what the tags say. */
  lemma {:induction false} DecodeStream(ts: seq<Tag>, rest: seq<byte>, out: seq<byte>, limit: nat)
    requires AllEncodable(ts) && Expand(ts, out).Good? && |Expand(ts, out).out| <= limit
    ensures Decode(StreamBytes(ts) + rest, out, limit) == Decode(rest, Expand(ts, out).out, limit)
  {
    hide Parse, TagBytes, CopyFrom, Encodable;
    if ts == [] {
      assert StreamBytes(ts) + rest == rest;
    } else {
      var before, t := ts[..|ts|-1], ts[|ts|-1];
      var b, o := TagBytes(t), Expand(before, out).out;
      assert StreamBytes(ts) + rest == StreamBytes(before) + (b + rest);
      DecodeStream(before, b + rest, out, limit);
      ParseTag(t, rest);
      assert (b + rest)[|b|..] == rest;
      assert b + rest != [] by { TagBytesNonEmpty(t); }
    }
  }

  lemma TagBytesNonEmpty(t: Tag)
    requires Encodable(t)
    ensures TagBytes(t) != []
  {
  }

  lemma {:induction false} CopyFromPrefix(pre: seq<byte>, out: seq<byte>, offset: nat, len: nat)
    requires 1 <= offset <= |out|
    ensures CopyFrom(pre + out, offset, len) == pre + CopyFrom(out, offset, len)
    decreases len
  {
    if len > 0 {
      assert (pre + out)[|pre + out| - offset] == out[|out| - offset];
      assert pre + out + [out[|out| - offset]] == pre + (out + [out[|out| - offset]]);
      CopyFromPrefix(pre, out + [out[|out| - offset]], offset, len - 1);
    }
  }

  /** A list that expands on its own expands the same way after any earlier output. */
  lemma {:induction false} ExpandPrefix(ts: seq<Tag>, pre: seq<byte>)
    requires Expand(ts, []).Good?
    ensures Expand(ts, pre) == Good(pre + Expand(ts, []).out)
  {
    if ts == [] {
      assert pre + [] == pre;
    } else {
      var before, t := ts[..|ts|-1], ts[|ts|-1];
      ExpandPrefix(before, pre);
      var o := Expand(before, []).out;
      match t
      case Literal(data) => assert pre + o + data == pre + (o + data);
      case Copy(offset, len) => CopyFromPrefix(pre, o, offset, len);
    }
  }

  lemma {:induction false} CopyFromAdd(out: seq<byte>, offset: nat, m: nat, n: nat)
    requires 1 <= offset <= |out|
    ensures CopyFrom(CopyFrom(out, offset, m), offset, n) == CopyFrom(out, offset, m + n)
    decreases m
  {
    if m > 0 { CopyFromAdd(out + [out[|out| - offset]], offset, m - 1, n); }
  }

  lemma CopyFromNone(out: seq<byte>, offset: nat)
    requires 1 <= offset <= |out|
    ensures CopyFrom(out, offset, 0) == out
  {
  }

  /** One more byte is the one offset places back. */
  lemma {:induction false} CopyFromLast(out: seq<byte>, offset: nat, k: nat)
    requires 1 <= offset <= |out|
    ensures CopyFrom(out, offset, k + 1) == CopyFrom(out, offset, k) + [CopyFrom(out, offset, k)[|out| + k - offset]]
  {
    CopyFromAdd(out, offset, k, 1);
    var o := CopyFrom(out, offset, k);
    assert CopyFrom(o, offset, 1) == CopyFrom(o + [o[|o| - offset]], offset, 0);
  }

  // ----- the pieces of a long copy

  function CopyPieces(offset: nat, len: nat): seq<Tag>
    decreases len
  {
    if len >= 68 then [Copy(offset, 64)] + CopyPieces(offset, len - 64)
    else if len > 64 then [Copy(offset, 60), Copy(offset, len - 60)]
    else [Copy(offset, len)]
  }

  /** No fewer pieces of at most 64 bytes would do, and none is shorter than four. */
  lemma {:induction false} FewestPieces(offset: nat, len: nat)
    requires len >= 4
    ensures |CopyPieces(offset, len)| == (len + 63) / 64
    ensures forall i :: 0 <= i < |CopyPieces(offset, len)| ==>
              var t := CopyPieces(offset, len)[i]; t.Copy? && t.offset == offset && 4 <= t.len <= 64
  {
    if len >= 68 { FewestPieces(offset, len - 64); }
  }

  /** The length of the pieces in bytes: every piece is at least one byte shorter than what it copies. */
  lemma {:induction false} CopyPiecesAppend(ts: seq<Tag>, offset: nat, len: nat, out: seq<byte>)
    requires AllEncodable(ts) && Expand(ts, out).Good? && 1 <= offset <= |Expand(ts, out).out|
    requires offset < BLOCK_SIZE && len >= 4
    ensures var all := ts + CopyPieces(offset, len);
            && AllEncodable(all)
            && Expand(all, out) == Good(CopyFrom(Expand(ts, out).out, offset, len))
            && |StreamBytes(all)| <= |StreamBytes(ts)| + len - 1
    decreases len
  {
    hide CopyFrom, Expand, StreamBytes, AllEncodable;
    var o := Expand(ts, out).out;
    if len >= 68 {
      PieceAppend(ts, offset, 64, out);
      CopyPiecesAppend(ts + [Copy(offset, 64)], offset, len - 64, out);
      CopyFromAdd(o, offset, 64, len - 64);
      assert ts + CopyPieces(offset, len) == ts + [Copy(offset, 64)] + CopyPieces(offset, len - 64);
    } else if len > 64 {
      PieceAppend(ts, offset, 60, out);
      PieceAppend(ts + [Copy(offset, 60)], offset, len - 60, out);
      CopyFromAdd(o, offset, 60, len - 60);
      assert ts + CopyPieces(offset, len) == ts + [Copy(offset, 60)] + [Copy(offset, len - 60)];
    } else {
      PieceAppend(ts, offset, len, out);
    }
  }

  lemma PieceAppend(ts: seq<Tag>, offset: nat, len: nat, out: seq<byte>)
    requires AllEncodable(ts) && Expand(ts, out).Good? && 1 <= offset <= |Expand(ts, out).out|
    requires offset < BLOCK_SIZE && 4 <= len <= 64
    ensures var all := ts + [Copy(offset, len)];
            && AllEncodable(all)
            && Expand(all, out) == Good(CopyFrom(Expand(ts, out).out, offset, len))
            && |StreamBytes(all)| <= |StreamBytes(ts)| + len - 1
  {
    hide CopyFrom, Expand, StreamBytes;
    ExpandAppend(ts, Copy(offset, len), out);
  }

  // ----- what the compressor maintains

  /** The tags cover the first e bytes of the input and grow them by at most one byte in sixty. */
  ghost predicate Covers(ts: seq<Tag>, input: seq<byte>, e: nat) {
    && e <= |input| && AllEncodable(ts)
    && Expand(ts, []) == Good(input[..e])
    && |StreamBytes(ts)| <= e + e / 60
  }

  lemma HeaderLength(len: nat)
    requires 1 <= len <= BLOCK_SIZE
    ensures |LiteralHeader(len)| == if len <= 60 then 1 else if len <= 256 then 2 else 3
  {
    LengthBytesShort(len - 1);
  }

  /** A literal and the copy that follows it. */
  lemma CoverItem(ts: seq<Tag>, input: seq<byte>, e: nat, ip: nat, candidate: nat, len: nat)
    requires Covers(ts, input, e) && |input| <= BLOCK_SIZE && e < ip && candidate < ip && ip + len <= |input|
             && len >= 4
    requires input[candidate..candidate+len] == input[ip..ip+len]
    ensures Covers(ts + [Literal(input[e..ip])] + CopyPieces(ip - candidate, len), input, ip + len)
  {
    hide LiteralHeader, CopyFrom, Expand, StreamBytes;
    var lit := Literal(input[e..ip]);
    var mid := ts + [lit];
    ExpandAppend(ts, lit, []);
    assert input[..e] + input[e..ip] == input[..ip];
    HeaderLength(ip - e);
    CopyPiecesAppend(mid, ip - candidate, len, []);
    MatchIsCopy(input, candidate, ip, len);
  }

  /** A copy directly after another copy. */
  lemma CoverCopy(ts: seq<Tag>, input: seq<byte>, ip: nat, candidate: nat, len: nat)
    requires Covers(ts, input, ip) && |input| <= BLOCK_SIZE && candidate < ip && ip + len <= |input| && len >= 4
    requires input[candidate..candidate+len] == input[ip..ip+len]
    ensures Covers(ts + CopyPieces(ip - candidate, len), input, ip + len)
  {
    hide CopyFrom, Expand, StreamBytes;
    CopyPiecesAppend(ts, ip - candidate, len, []);
    MatchIsCopy(input, candidate, ip, len);
  }

  /** Copying a matching stretch reproduces the input. */
  lemma MatchIsCopy(input: seq<byte>, candidate: nat, ip: nat, len: nat)
    requires candidate < ip && ip + len <= |input|
    requires input[candidate..candidate+len] == input[ip..ip+len]
    ensures CopyFrom(input[..ip], ip - candidate, len) == input[..ip+len]
  {
    hide CopyFrom;
    var p := ip - candidate;
    forall i | ip <= i < ip + len
      ensures input[i] == input[i-p]
    {
      assert input[candidate..candidate+len][i-ip] == input[ip..ip+len][i-ip];
    }
    PeriodicIsCopy(input, p, ip, ip + len);
  }

  /** The last literal of a block. */
  lemma CoverRemainder(ts: seq<Tag>, input: seq<byte>, e: nat)
    requires Covers(ts, input, e) && e < |input| <= BLOCK_SIZE
    ensures var all := ts + [Literal(input[e..])];
            && AllEncodable(all) && Expand(all, []) == Good(input)
            && |StreamBytes(all)| <= |input| + |input| / 60 + 1
  {
    hide LiteralHeader, Expand, StreamBytes;
    ExpandAppend(ts, Literal(input[e..]), []);
    assert input[..e] + input[e..] == input;
    HeaderLength(|input| - e);
  }
}

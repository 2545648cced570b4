/** The writer that collects its output in separately allocated blocks. */
module SnappyScatteredWriter {
  import opened Bytes
  import opened SnappyFormat
  import opened SnappyCopy
  import opened SnappyStream
  import opened SnappyFlatWriters

  class ScatteredWriter {
    var blocks: seq<array<byte>>
    var expected: nat
    var fullSize: nat
    var opPtr: nat
    ghost var contents: seq<byte>

    /** Length of the current block; zero before the first one. */
    function OpLimit(): nat
      reads this
    {
      if blocks == [] then 0 else blocks[|blocks|-1].Length
    }

    ghost predicate Shape()
      reads this
    {
      && opPtr <= OpLimit() && fullSize + OpLimit() <= expected < SIZE_LIMIT
      && fullSize == (if blocks == [] then 0 else BLOCK_SIZE * (|blocks| - 1))
      && (blocks != [] && OpLimit() < BLOCK_SIZE ==> fullSize + OpLimit() == expected)
      && (forall i :: 0 <= i < |blocks| ==> blocks[i].Length <= BLOCK_SIZE)
      && (forall i :: 0 <= i < |blocks| - 1 ==> blocks[i].Length == BLOCK_SIZE)
      && (forall i, j :: 0 <= i < j < |blocks| ==> blocks[i] != blocks[j])
      && |contents| == fullSize + opPtr
    }

    /** Full blocks hold their stretch of the contents, the current block the tail. */
    ghost predicate Stored()
      requires Shape()
      reads this, blocks
    {
      && (forall k :: 0 <= k < |blocks| - 1 ==> blocks[k][..] == Stretch(contents, k))
      && (blocks != [] ==> blocks[|blocks|-1][..opPtr] == contents[fullSize..])
    }

    ghost predicate Valid()
      reads this, blocks
    {
      Shape() && Stored()
    }

    ghost function Repr(): set<object>
      reads this
    {
      {this} + (set i | 0 <= i < |blocks| :: blocks[i] as object)
    }

    constructor ()
      ensures Valid() && blocks == [] && contents == [] && expected == 0
    {
      blocks, expected, fullSize, opPtr, contents := [], 0, 0, 0, [];
    }

    method SetExpectedLength(len: nat)
      requires Valid() && blocks == [] && len < SIZE_LIMIT
      modifies this
      ensures Valid() && blocks == [] && contents == [] && expected == len
    {
      expected := len;
    }

    /** Hand the blocks to the sink in order, the last one only as far as it was filled. */
    method Flush() returns (sink: seq<byte>)
      requires Valid()
      ensures sink == contents
    {
      sink := [];
      var size := fullSize + opPtr;
      for i := 0 to |blocks|
        invariant |sink| == (if i < |blocks| then BLOCK_SIZE * i else size) && sink == contents[..|sink|]
      {
        var blockSize := if blocks[i].Length < size - |sink| then blocks[i].Length else size - |sink|;
        ghost var done := |sink|;
        if i == |blocks| - 1 {
          assert blocks[i][..blockSize] == contents[done..];
        } else {
          BlockBelow(i, |blocks| - 1);
          assert blocks[i][..blockSize] == blocks[i][..] == contents[done..done+blockSize];
        }
        sink := sink + blocks[i][..blockSize];
      }
    }

    method CheckLength() returns (ok: bool)
      requires Valid()
      ensures ok == (|contents| == expected)
    {
      ok := fullSize + opPtr == expected;
    }

    lemma Bounds()
      requires Valid()
      ensures opPtr <= OpLimit() && |contents| == fullSize + opPtr && fullSize + OpLimit() <= expected < SIZE_LIMIT
    {
    }

    /** Copy data into the current block and keep the first n bytes of it. */
    method Write(data: seq<byte>, n: nat)
      requires Valid() && blocks != [] && n <= |data| <= OpLimit() - opPtr
      modifies this, blocks
      ensures Valid() && blocks == old(blocks) && expected == old(expected) && fullSize == old(fullSize)
      ensures contents == old(contents) + data[..n] && opPtr == old(opPtr) + n
    {
      hide Stretch;
      ghost var was, ptr := contents, opPtr;
      var b := blocks[|blocks|-1];
      MemCopy(b, opPtr, data);
      opPtr := opPtr + n;
      contents := contents + data[..n];
      assert b[..opPtr] == b[..ptr] + b[ptr..ptr+|data|][..n];
      assert contents[fullSize..] == was[fullSize..] + data[..n];
      SameStretches(was, contents, fullSize);
    }

    /** Copy into the current block. */
    method Fill(data: seq<byte>)
      requires Valid() && |data| <= OpLimit() - opPtr
      modifies this, blocks
      ensures Valid() && blocks == old(blocks) && expected == old(expected) && fullSize == old(fullSize)
      ensures contents == old(contents) + data && opPtr == old(opPtr) + |data|
    {
      assert data[..|data|] == data;
      if data == [] {
        assert contents + data == contents;
      } else {
        Write(data, |data|);
      }
    }

    /** Close the full current block and open the next, unless the rest would not fit. */
    method NextBlock(rest: nat) returns (ok: bool)
      requires Valid() && opPtr == OpLimit() && rest > 0
      modifies this
      ensures ok == (|old(contents)| + rest <= old(expected))
      ensures ok ==> Valid() && contents == old(contents) && expected == old(expected)
      ensures ok ==> opPtr == 0 && OpLimit() > 0
      ensures fresh(Repr() - old(Repr()))
    {
      hide Stretch;
      if fullSize + opPtr < expected { AllFull(); }
      fullSize := fullSize + opPtr;
      if fullSize + rest > expected {
        return false;
      }
      var bsize := if BLOCK_SIZE < expected - fullSize then BLOCK_SIZE else expected - fullSize;
      var b := new byte[bsize](_ => 0);
      blocks := blocks + [b];
      opPtr := 0;
      return true;
    }

    /** When the current block is full and more is expected, every block is full. */
    lemma AllFull()
      requires Valid() && opPtr == OpLimit() && |contents| < expected
      ensures |contents| == BLOCK_SIZE * |blocks|
      ensures forall k :: 0 <= k < |blocks| ==> blocks[k].Length == BLOCK_SIZE && blocks[k][..] == Stretch(contents, k)
    {
      if blocks != [] {
        var k := |blocks| - 1;
        assert blocks[k][..] == blocks[k][..opPtr];
        assert Stretch(contents, k) == contents[BLOCK_SIZE * k..];
      }
    }

    method Append(data: seq<byte>) returns (ok: bool)
      requires Valid()
      modifies this, blocks
      ensures ok == (|old(contents)| + |data| <= old(expected))
      ensures ok ==> Valid() && contents == old(contents) + data && expected == old(expected)
      ensures fresh(Repr() - old(Repr()))
    {
      var avail := OpLimit() - opPtr;
      if |data| <= avail {
        Fill(data);
        return true;
      }
      ok := SlowAppend(data);
    }

    method SlowAppend(data: seq<byte>) returns (ok: bool)
      requires Valid() && |data| > OpLimit() - opPtr
      modifies this, blocks
      ensures ok == (|old(contents)| + |data| <= old(expected))
      ensures ok ==> Valid() && contents == old(contents) + data && expected == old(expected)
      ensures fresh(Repr() - old(Repr()))
    {
      hide ScatteredWriter.Valid;
      Bounds();
      ghost var was, limit := contents, expected;
      var avail, rest := OpLimit() - opPtr, data;
      while |rest| > avail
        invariant Valid() && 0 <= avail == OpLimit() - opPtr && expected == limit
        invariant |rest| <= |data| && contents == was + data[..|data|-|rest|] && rest == data[|data|-|rest|..]
        invariant |rest| > 0
        invariant fresh(Repr() - old(Repr()))
        decreases |rest| + (if avail == 0 then 1 else 0)
      {
        ghost var k := |data| - |rest|;
        assert data[..k+avail] == data[..k] + rest[..avail];
        Fill(rest[..avail]);
        rest := rest[avail..];
        ok := NextBlock(|rest|);
        if !ok {
          return false;
        }
        avail := OpLimit();
        Bounds();
      }
      Bounds();
      assert data == data[..|data|-|rest|] + rest;
      Fill(rest);
      return true;
    }

    method TryFastAppend(input: seq<byte>, ip: nat, available: nat, len: nat) returns (ok: bool)
      requires Valid() && ip + available <= |input|
      modifies this, blocks
      ensures Valid() && expected == old(expected) && Repr() == old(Repr())
      ensures ok ==> len + MAXIMUM_TAG_LENGTH <= available && len <= 16 && contents == old(contents) + input[ip..ip+len]
      ensures !ok ==> contents == old(contents)
    {
      if len <= 16 && available >= 16 + MAXIMUM_TAG_LENGTH && OpLimit() - opPtr >= 16 {
        assert input[ip..ip+16][..len] == input[ip..ip+len];
        Write(input[ip..ip+16], len);
        return true;
      }
      return false;
    }

    method AppendFromSelf(offset: nat, len: nat) returns (ok: bool)
      requires Valid() && offset < SIZE_LIMIT
      modifies this, blocks
      ensures ok == (1 <= offset <= |old(contents)| && |old(contents)| + len <= old(expected))
      ensures ok ==> Valid() && contents == CopyFrom(old(contents), offset, len) && expected == old(expected)
      ensures fresh(Repr() - old(Repr()))
    {
      hide CopyFrom;
      OffsetTrick(offset, opPtr);
      if MinusOne(offset) < opPtr && opPtr + len <= OpLimit() {
        CopyWithin(offset, len);
        return true;
      }
      ok := SlowAppendFromSelf(offset, len);
    }

    /** Source and destination in the current block. */
    method CopyWithin(offset: nat, len: nat)
      requires Valid() && 1 <= offset <= opPtr && opPtr + len <= OpLimit()
      modifies this, blocks
      ensures Valid() && blocks == old(blocks) && expected == old(expected)
      ensures contents == CopyFrom(old(contents), offset, len)
    {
      hide CopyFrom;
      ghost var was, tail := contents, contents[fullSize..];
      var b := blocks[|blocks|-1];
      IncrementalCopy(b, opPtr - offset, opPtr, opPtr + len, OpLimit());
      opPtr := opPtr + len;
      CopyFromPrefix(was[..fullSize], tail, offset, len);
      assert was == was[..fullSize] + tail;
      contents := CopyFrom(contents, offset, len);
      SameStretches(was, contents, fullSize);
    }

    /** Where a byte of the output is kept. */
    lemma Located(i: nat)
      requires Valid() && i < |contents|
      ensures i / BLOCK_SIZE < |blocks| && i % BLOCK_SIZE < blocks[i / BLOCK_SIZE].Length
      ensures blocks[i / BLOCK_SIZE][i % BLOCK_SIZE] == contents[i]
    {
      var k, r := i / BLOCK_SIZE, i % BLOCK_SIZE;
      assert i == BLOCK_SIZE * k + r;
      if i < fullSize {
        assert blocks[k][..][r] == Stretch(contents, k)[r];
      } else {
        assert k == |blocks| - 1;
        assert blocks[k][..opPtr][r] == contents[fullSize..][r];
      }
    }

    /** Byte by byte, across blocks. */
    method SlowAppendFromSelf(offset: nat, len: nat) returns (ok: bool)
      requires Valid() && offset < SIZE_LIMIT
      modifies this, blocks
      ensures ok == (1 <= offset <= |old(contents)| && |old(contents)| + len <= old(expected))
      ensures ok ==> Valid() && contents == CopyFrom(old(contents), offset, len) && expected == old(expected)
      ensures fresh(Repr() - old(Repr()))
    {
      hide CopyFrom;
      hide ScatteredWriter.Valid;
      Bounds();
      var cur := fullSize + opPtr;
      OffsetTrick(offset, cur);
      if MinusOne(offset) >= cur {
        return false;
      }
      if expected - cur < len {
        return false;
      }
      ghost var was, limit := contents, expected;
      CopyFromNone(was, offset);
      for k := 0 to len
        invariant Valid() && expected == limit && contents == CopyFrom(was, offset, k)
        invariant fresh(Repr() - old(Repr()))
      {
        var src := cur - offset + k;
        Located(src);
        var c := blocks[src / BLOCK_SIZE][src % BLOCK_SIZE];
        CopyFromLast(was, offset, k);
        var appended := Append([c]);
      }
      return true;
    }
  }

  /** The bytes of full block k. */
  function Stretch(s: seq<byte>, k: nat): seq<byte> {
    if BLOCK_SIZE * k + BLOCK_SIZE <= |s| then s[BLOCK_SIZE * k..BLOCK_SIZE * k + BLOCK_SIZE] else []
  }

  lemma BlockBelow(i: nat, n: nat)
    requires i < n
    ensures BLOCK_SIZE * i + BLOCK_SIZE <= BLOCK_SIZE * n
  {
  }

  lemma SameStretches(s: seq<byte>, t: seq<byte>, n: nat)
    requires n <= |s| && n <= |t| && s[..n] == t[..n]
    ensures forall k: nat :: BLOCK_SIZE * k + BLOCK_SIZE <= n ==> Stretch(s, k) == Stretch(t, k)
  {
    forall k: nat | BLOCK_SIZE * k + BLOCK_SIZE <= n
      ensures Stretch(s, k) == Stretch(t, k)
    {
      var a, b := BLOCK_SIZE * k, BLOCK_SIZE * k + BLOCK_SIZE;
      assert s[a..b] == s[..n][a..b] && t[a..b] == t[..n][a..b];
    }
  }
}

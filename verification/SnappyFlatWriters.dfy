/** The flat array writer and the validator. */
module SnappyFlatWriters {
  import opened Bytes
  import opened SnappyFormat
  import opened SnappyCopy

  const MAXIMUM_TAG_LENGTH := 5

  /** Sizes are 64-bit and wrap. */
  const SIZE_LIMIT := 0x1_0000_0000_0000_0000

  function MinusOne(offset: nat): nat
    requires offset < SIZE_LIMIT
  {
    (offset + SIZE_LIMIT - 1) % SIZE_LIMIT
  }

  /** One comparison refuses both a zero offset and one before the start of the output. */
  lemma OffsetTrick(offset: nat, produced: nat)
    requires offset < SIZE_LIMIT && produced < SIZE_LIMIT
    ensures produced <= MinusOne(offset) <==> offset == 0 || offset > produced
  {
    if offset > 0 { assert MinusOne(offset) == offset - 1; }
  }

  class SnappyArrayWriter {
    const buf: array<byte>
    var op: nat
    var expected: nat
    ghost var contents: seq<byte>

    ghost predicate Valid()
      reads this, buf
    {
      op <= expected <= buf.Length && expected < SIZE_LIMIT && contents == buf[..op]
    }

    constructor (dst: array<byte>)
      ensures buf == dst && Valid() && contents == [] && expected == 0
    {
      buf := dst;
      op, expected, contents := 0, 0, [];
    }

    method SetExpectedLength(len: nat)
      requires Valid() && contents == [] && len <= buf.Length && len < SIZE_LIMIT
      modifies this
      ensures Valid() && contents == [] && expected == len
    {
      expected := op + len;
    }

    method CheckLength() returns (ok: bool)
      requires Valid()
      ensures ok == (|contents| == expected)
    {
      ok := op == expected;
    }

    method Append(data: seq<byte>) returns (ok: bool)
      requires Valid()
      modifies this, buf
      ensures Valid() && expected == old(expected)
      ensures ok == (|old(contents)| + |data| <= expected)
      ensures contents == if ok then old(contents) + data else old(contents)
    {
      if expected - op < |data| {
        return false;
      }
      forall i | 0 <= i < |data| {
        buf[op + i] := data[i];
      }
      op := op + |data|;
      contents := contents + data;
      return true;
    }

    /** Copies sixteen bytes and keeps the first len of them. */
    method TryFastAppend(input: seq<byte>, ip: nat, available: nat, len: nat) returns (ok: bool)
      requires Valid() && ip + available <= |input|
      modifies this, buf
      ensures Valid() && expected == old(expected)
      ensures ok ==> len + MAXIMUM_TAG_LENGTH <= available && len <= 16 && contents == old(contents) + input[ip..ip+len]
      ensures !ok ==> contents == old(contents)
      ensures ok <==> len <= 16 && available >= 21 && |old(contents)| + 16 <= expected
    {
      if len <= 16 && available >= 16 + MAXIMUM_TAG_LENGTH && expected - op >= 16 {
        forall i | 0 <= i < 16 {
          buf[op + i] := input[ip + i];
        }
        op := op + len;
        contents := contents + input[ip..ip+len];
        return true;
      }
      return false;
    }

    method AppendFromSelf(offset: nat, len: nat) returns (ok: bool)
      requires Valid() && offset < SIZE_LIMIT
      modifies this, buf
      ensures Valid() && expected == old(expected)
      ensures ok == (1 <= offset <= |old(contents)| && |old(contents)| + len <= expected)
      ensures contents == if ok then CopyFrom(old(contents), offset, len) else old(contents)
    {
      hide CopyFrom;
      var opEnd := op + len;
      OffsetTrick(offset, op);
      if op <= MinusOne(offset) || opEnd > expected {
        return false;
      }
      IncrementalCopy(buf, op - offset, op, opEnd, expected);
      op := opEnd;
      contents := CopyFrom(contents, offset, len);
      return true;
    }
  }

  /** Counts what would be written; the bytes themselves are only a ghost. */
  class SnappyDecompressionValidator {
    var expected: nat
    var produced: nat
    ghost var contents: seq<byte>

    ghost predicate Valid()
      reads this
    {
      |contents| == produced <= expected < SIZE_LIMIT
    }

    constructor ()
      ensures Valid() && contents == [] && expected == 0
    {
      expected, produced, contents := 0, 0, [];
    }

    method SetExpectedLength(len: nat)
      requires Valid() && contents == [] && len < SIZE_LIMIT
      modifies this
      ensures Valid() && contents == [] && expected == len
    {
      expected := len;
    }

    method CheckLength() returns (ok: bool)
      requires Valid()
      ensures ok == (|contents| == expected)
    {
      ok := expected == produced;
    }

    method Append(data: seq<byte>) returns (ok: bool)
      requires Valid()
      modifies this
      ensures expected == old(expected)
      ensures ok == (|old(contents)| + |data| <= expected)
      ensures ok ==> Valid() && contents == old(contents) + data
    {
      produced := produced + |data|;
      contents := contents + data;
      ok := produced <= expected;
    }

    method AppendFromSelf(offset: nat, len: nat) returns (ok: bool)
      requires Valid() && offset < SIZE_LIMIT
      modifies this
      ensures expected == old(expected)
      ensures ok == (1 <= offset <= |old(contents)| && |old(contents)| + len <= expected)
      ensures ok ==> Valid() && contents == CopyFrom(old(contents), offset, len)
    {
      OffsetTrick(offset, produced);
      if produced <= MinusOne(offset) {
        return false;
      }
      produced := produced + len;
      contents := CopyFrom(contents, offset, len);
      ok := produced <= expected;
    }
  }
}

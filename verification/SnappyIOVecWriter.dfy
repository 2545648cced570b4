/** The writer into a caller's list of buffers. */
module SnappyIOVecWriter {
  import opened Bytes
  import opened SnappyFormat
  import opened SnappyCopy
  import opened SnappyStream
  import opened SnappyFlatWriters

  /** Total length of the first i buffers. */
  function Start(iov: seq<array<byte>>, i: nat): nat
    requires i <= |iov|
  {
    if i == 0 then 0 else Start(iov, i - 1) + iov[i-1].Length
  }

  lemma {:induction false} StartMonotone(iov: seq<array<byte>>, i: nat, j: nat)
    requires i <= j <= |iov|
    ensures Start(iov, i) <= Start(iov, j)
    decreases j
  {
    if i < j { StartMonotone(iov, i, j - 1); }
  }

  lemma StartStep(iov: seq<array<byte>>, i: nat)
    requires i < |iov|
    ensures Start(iov, i + 1) == Start(iov, i) + iov[i].Length
  {
  }

  class IOVecWriter {
    const iov: seq<array<byte>>
    var currIndex: nat
    var currWritten: nat
    var expected: nat
    ghost var contents: seq<byte>

    ghost predicate Shape()
      reads this
    {
      && (forall i, j :: 0 <= i < j < |iov| ==> iov[i] != iov[j])
      && (if iov == [] then currIndex == 0 && currWritten == 0
          else currIndex < |iov| && currWritten <= iov[currIndex].Length)
      && |contents| == Start(iov, currIndex) + currWritten
      && |contents| <= expected <= Start(iov, |iov|) && expected < SIZE_LIMIT
    }

    /** Finished buffers hold their stretch of the contents, the current buffer the tail. */
    ghost predicate Stored()
      requires Shape()
      reads this, iov
    {
      && (forall k :: 0 <= k < currIndex ==> iov[k][..] == Stretch(iov, contents, k))
      && (iov != [] ==> iov[currIndex][..currWritten] == contents[Start(iov, currIndex)..])
    }

    ghost predicate Valid()
      reads this, iov
    {
      Shape() && Stored()
    }

    ghost function Repr(): set<object>
      reads this
    {
      {this} + (set i | 0 <= i < |iov| :: iov[i] as object)
    }

    constructor (buffers: seq<array<byte>>)
      requires forall i, j :: 0 <= i < j < |buffers| ==> buffers[i] != buffers[j]
      ensures iov == buffers && Valid() && contents == [] && expected == 0
    {
      iov := buffers;
      currIndex, currWritten, expected, contents := 0, 0, 0, [];
    }

    method SetExpectedLength(len: nat)
      requires Valid() && contents == [] && len <= Start(iov, |iov|) && len < SIZE_LIMIT
      modifies this
      ensures Valid() && contents == [] && expected == len
    {
      hide Start, Stretch;
      expected := len;
    }

    /** Total bytes written so far. */
    function Total(): nat
      reads this
      requires currIndex <= |iov|
    {
      Start(iov, currIndex) + currWritten
    }

    /** Byte i of buffer k is the byte of the contents at its position. */
    lemma Placed()
      requires Valid()
      ensures forall k, i :: 0 <= k < |iov| && 0 <= i < iov[k].Length && Start(iov, k) + i < |contents|
                             ==> iov[k][i] == contents[Start(iov, k) + i]
    {
      hide Valid, Start;
      forall k, i | 0 <= k < |iov| && 0 <= i < iov[k].Length && Start(iov, k) + i < |contents|
        ensures iov[k][i] == contents[Start(iov, k) + i]
      {
        PlacedAt(k, i);
      }
    }

    lemma PlacedAt(k: nat, i: nat)
      requires Valid() && k < |iov| && i < iov[k].Length && Start(iov, k) + i < |contents|
      ensures iov[k][i] == contents[Start(iov, k) + i]
    {
      hide Start, Valid;
      if k < currIndex {
        PlacedBefore(k, i);
      } else if k == currIndex {
        PlacedCurrent(i);
      } else {
        NothingAfter(k);
      }
    }

    lemma PlacedCurrent(i: nat)
      requires Valid() && iov != [] && Start(iov, currIndex) + i < |contents|
      ensures i < iov[currIndex].Length && iov[currIndex][i] == contents[Start(iov, currIndex) + i]
    {
      hide Start, Stretch;
      assert iov[currIndex][i] == iov[currIndex][..currWritten][i];
    }

    lemma NothingAfter(k: nat)
      requires Valid() && currIndex < k < |iov|
      ensures |contents| <= Start(iov, k)
    {
      hide Start, Stored;
      StartStep(iov, currIndex);
      StartMonotone(iov, currIndex + 1, k);
    }

    lemma PlacedBefore(k: nat, i: nat)
      requires Valid() && k < currIndex && i < iov[k].Length
      ensures Start(iov, k) + i < |contents| && iov[k][i] == contents[Start(iov, k) + i]
    {
      hide Start;
      StartStep(iov, k);
      StartMonotone(iov, k + 1, currIndex);
      assert iov[k][i] == iov[k][..][i];
    }

    method CheckLength() returns (ok: bool)
      requires Valid()
      ensures ok == (|contents| == expected)
    {
      ok := Total() == expected;
    }

    lemma Bounds()
      requires Valid()
      ensures currIndex <= |iov| && |contents| == Total() <= expected <= Start(iov, |iov|) && expected < SIZE_LIMIT
      ensures iov == [] ==> expected == 0
      ensures iov != [] ==> currIndex < |iov| && currWritten <= iov[currIndex].Length
    {
    }

    /** Copy data into the current buffer and keep the first n bytes of it. */
    method Write(data: seq<byte>, n: nat)
      requires Valid() && iov != [] && n <= |data| <= iov[currIndex].Length - currWritten && |contents| + n <= expected
      modifies this, iov
      ensures Valid() && expected == old(expected) && currIndex == old(currIndex)
      ensures contents == old(contents) + data[..n] && currWritten == old(currWritten) + n
    {
      hide Start, Stretch;
      ghost var was, ptr, first := contents, currWritten, Start(iov, currIndex);
      var b := iov[currIndex];
      MemCopy(b, currWritten, data);
      currWritten := currWritten + n;
      contents := contents + data[..n];
      assert b[..currWritten] == b[..ptr] + b[ptr..ptr+|data|][..n];
      assert contents[first..] == was[first..] + data[..n];
      SameStretches(iov, was, contents, currIndex);
    }

    lemma FullStretch()
      requires Valid() && iov != [] && currWritten == iov[currIndex].Length
      ensures iov[currIndex][..] == Stretch(iov, contents, currIndex) && Start(iov, currIndex + 1) == |contents|
    {
      hide Start;
      StartStep(iov, currIndex);
      assert iov[currIndex][..] == iov[currIndex][..currWritten];
    }

    /** Move to the next buffer when the current one is full. */
    method Advance()
      requires Valid() && iov != [] && currWritten == iov[currIndex].Length && |contents| < expected
      modifies this
      ensures Valid() && expected == old(expected) && contents == old(contents)
      ensures currIndex == old(currIndex) + 1 && currWritten == 0
    {
      hide Start;
      StartStep(iov, currIndex);
      if currIndex + 1 >= |iov| {
        assert false;
      }
      FullStretch();
      currIndex := currIndex + 1;
      currWritten := 0;
    }

    method Append(data: seq<byte>) returns (ok: bool)
      requires Valid()
      modifies this, iov
      ensures ok == (|old(contents)| + |data| <= old(expected))
      ensures ok ==> Valid() && contents == old(contents) + data && expected == old(expected)
      ensures ok ==> currIndex >= old(currIndex)
    {
      hide IOVecWriter.Valid;
      Bounds();
      if Total() + |data| > expected {
        return false;
      }
      ghost var was, limit, index := contents, expected, currIndex;
      var rest := data;
      assert data[..0] == [] && was + [] == was;
      while |rest| > 0
        invariant Valid() && expected == limit && |rest| <= |data| && currIndex >= index
        invariant contents == was + data[..|data|-|rest|] && rest == data[|data|-|rest|..]
        decreases |rest| + (|iov| - currIndex)
      {
        Bounds();
        ghost var k := |data| - |rest|;
        if currWritten >= iov[currIndex].Length {
          Advance();
          Bounds();
        }
        var room := iov[currIndex].Length - currWritten;
        var toWrite := if |rest| < room then |rest| else room;
        assert data[..k+toWrite] == data[..k] + rest[..toWrite];
        assert rest[..toWrite][..toWrite] == rest[..toWrite];
        Write(rest[..toWrite], toWrite);
        rest := rest[toWrite..];
      }
      assert data[..|data|] == data;
      return true;
    }

    method TryFastAppend(input: seq<byte>, ip: nat, available: nat, len: nat) returns (ok: bool)
      requires Valid() && ip + available <= |input|
      modifies this, iov
      ensures Valid() && expected == old(expected)
      ensures ok ==> len + MAXIMUM_TAG_LENGTH <= available && len <= 16 && contents == old(contents) + input[ip..ip+len]
      ensures !ok ==> contents == old(contents)
    {
      hide IOVecWriter.Valid;
      Bounds();
      if len <= 16 && available >= 16 + MAXIMUM_TAG_LENGTH && expected - Total() >= 16
         && iov[currIndex].Length - currWritten >= 16 {
        assert input[ip..ip+16][..len] == input[ip..ip+len];
        Write(input[ip..ip+16], len);
        return true;
      }
      return false;
    }

    /** Walk back from the write position to the byte offset places before it. */
    method Locate(offset0: nat) returns (index: nat, at: nat)
      requires Valid() && 1 <= offset0 <= |contents|
      ensures index <= currIndex < |iov| && at <= iov[index].Length
      ensures Start(iov, index) + at == |contents| - offset0
    {
      hide IOVecWriter.Valid;
      Bounds();
      var offset := offset0;
      index, at := currIndex, currWritten;
      while at < offset
        invariant index <= currIndex < |iov| && at <= iov[index].Length && offset >= 1
        invariant Start(iov, index) + at - offset == |contents| - offset0
        decreases index
      {
        offset := offset - at;
        index := index - 1;
        at := iov[index].Length;
      }
      at := at - offset;
    }

    /** Source and destination in the current buffer, byte by byte. */
    method CopyWithin(at: nat, n: nat)
      requires Valid() && iov != [] && at < currWritten && currWritten + n <= iov[currIndex].Length
               && |contents| + n <= expected
      modifies this, iov
      ensures Valid() && expected == old(expected) && currIndex == old(currIndex) && currWritten == old(currWritten) + n
      ensures contents == CopyFrom(old(contents), old(currWritten) - at, n)
    {
      hide CopyFrom, Stage, Periodic;
      ghost var was, first, tail := contents, Start(iov, currIndex), contents[Start(iov, currIndex)..];
      var b := iov[currIndex];
      ghost var before, p := b[..], currWritten - at;
      StageStart(before, p, currWritten, b.Length);
      assert 1 * p == p;
      IncrementalCopySlow(b, at, currWritten, currWritten + n, before, p, currWritten, b.Length, 1);
      StageEnd(before, b[..], p, currWritten, currWritten + n, currWritten + n, b.Length);
      assert before[..currWritten] == tail;
      currWritten := currWritten + n;
      assert b[..][..currWritten] == b[..currWritten];
      CopyFromPrefix(was[..first], tail, p, n);
      assert was == was[..first] + tail;
      contents := CopyFrom(contents, p, n);
      SameStretches(iov, was, contents, currIndex);
    }

    /** Source in an earlier buffer. */
    method CopyFinished(index: nat, at: nat, n: nat, ghost offset: nat)
      requires Valid() && index < currIndex < |iov| && at + n <= iov[index].Length && 1 <= offset <= |contents|
      requires Start(iov, index) + at == |contents| - offset && |contents| + n <= expected
      modifies this, iov
      ensures Valid() && expected == old(expected) && currIndex >= old(currIndex)
      ensures contents == CopyFrom(old(contents), offset, n)
    {
      hide CopyFrom, IOVecWriter.Valid, Start;
      Finished(index, at, n);
      CopyFromBefore(contents, offset, n);
      var appended := Append(iov[index][at..at+n]);
    }

    method AppendFromSelf(offset: nat, len: nat) returns (ok: bool)
      requires Valid()
      modifies this, iov
      ensures ok == (1 <= offset <= |old(contents)| && |old(contents)| + len <= old(expected))
      ensures ok ==> Valid() && contents == CopyFrom(old(contents), offset, len) && expected == old(expected)
    {
      hide CopyFrom, IOVecWriter.Valid, Start;
      Bounds();
      if offset > Total() || offset == 0 {
        return false;
      }
      if len > expected - Total() {
        return false;
      }
      ghost var was, limit := contents, expected;
      var index: nat, at: nat;
      index, at := Locate(offset);
      var left := len;
      CopyFromNone(was, offset);
      while left > 0
        invariant Valid() && expected == limit && 0 <= left <= len && contents == CopyFrom(was, offset, len - left)
        invariant left > 0 ==>
                    && index <= currIndex < |iov| && at <= iov[index].Length
                    && Start(iov, index) + at == |contents| - offset
        decreases left, (|iov| - index) + (|iov| - currIndex)
      {
        Bounds();
        if index != currIndex {
          var room := iov[index].Length - at;
          var toCopy := if room < left then room else left;
          StartStep(iov, index);
          CopyFromAdd(was, offset, len - left, toCopy);
          CopyFinished(index, at, toCopy, offset);
          left := left - toCopy;
          if left > 0 {
            index := index + 1;
            at := 0;
          }
        } else {
          var room := iov[currIndex].Length - currWritten;
          var toCopy := if room < left then room else left;
          if toCopy == 0 {
            Advance();
          } else {
            CopyFromAdd(was, offset, len - left, toCopy);
            CopyWithin(at, toCopy);
            at := at + toCopy;
            left := left - toCopy;
          }
        }
        Bounds();
      }
      return true;
    }

    /** A stretch of a finished buffer is a stretch of the contents. */
    lemma Finished(index: nat, at: nat, n: nat)
      requires Valid() && index < currIndex < |iov| && at + n <= iov[index].Length
      ensures var p := Start(iov, index) + at;
              p + n <= |contents| && iov[index][at..at+n] == contents[p..p+n]
    {
      hide Start;
      StartStep(iov, index);
      StartMonotone(iov, index + 1, currIndex);
      var a, b := Start(iov, index), Start(iov, index + 1);
      assert iov[index][..] == contents[a..b];
      SliceOfSlice(contents, a, b, at, at + n);
      assert iov[index][at..at+n] == iov[index][..][at..at+n];
    }
  }

  /** The bytes of buffer k. */
  function Stretch(iov: seq<array<byte>>, s: seq<byte>, k: nat): seq<byte>
    requires k < |iov|
  {
    if Start(iov, k + 1) <= |s| then s[Start(iov, k)..Start(iov, k + 1)] else []
  }

  lemma SameStretches(iov: seq<array<byte>>, s: seq<byte>, t: seq<byte>, index: nat)
    requires index <= |iov| && Start(iov, index) <= |s| && Start(iov, index) <= |t|
    requires s[..Start(iov, index)] == t[..Start(iov, index)]
    ensures forall k :: 0 <= k < index ==> Stretch(iov, s, k) == Stretch(iov, t, k)
  {
    forall k | 0 <= k < index
      ensures Stretch(iov, s, k) == Stretch(iov, t, k)
    {
      StartMonotone(iov, k + 1, index);
      var n, a, b := Start(iov, index), Start(iov, k), Start(iov, k + 1);
      assert a <= b <= n;
      assert s[a..b] == s[..n][a..b] && t[a..b] == t[..n][a..b];
    }
  }

  /** Copying bytes that all lie before the end appends a slice. */
  lemma {:induction false} CopyFromBefore(out: seq<byte>, offset: nat, n: nat)
    requires n <= offset <= |out| && offset >= 1
    ensures CopyFrom(out, offset, n) == out + out[|out|-offset..|out|-offset+n]
  {
    if n == 0 {
      assert out[|out|-offset..|out|-offset] == [];
      assert out + [] == out;
    } else {
      CopyFromBefore(out, offset, n - 1);
      CopyFromLast(out, offset, n - 1);
      var p := |out| - offset;
      assert out[p..p+n] == out[p..p+n-1] + [out[p+n-1]];
    }
  }
}

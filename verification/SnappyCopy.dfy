/** Overlapping copies inside one buffer: the fast form writes what the byte-at-a-time form writes. */
module SnappyCopy {
  import opened Bytes
  import opened SnappyFormat

  /** Between the two positions, every byte repeats the one p places before it. */
  ghost predicate Periodic(s: seq<byte>, p: nat, start: nat, end: nat) {
    1 <= p <= start <= end <= |s| && forall i :: start <= i < end ==> s[i] == s[i-p]
  }

  /** A periodic stretch is exactly what appending byte by byte produces. */
  lemma {:induction false} PeriodicIsCopy(s: seq<byte>, p: nat, start: nat, end: nat)
    requires Periodic(s, p, start, end)
    ensures s[..end] == CopyFrom(s[..start], p, end - start)
    decreases end - start
  {
    if start < end {
      assert s[..start] + [s[start-p]] == s[..start+1];
      PeriodicIsCopy(s, p, start + 1, end);
    }
  }

  lemma {:induction false} PeriodicShift(s: seq<byte>, p: nat, start: nat, end: nat, i: nat, k: nat)
    requires Periodic(s, p, start, end) && i < end && start - p + k * p <= i
    ensures k * p <= i && s[i] == s[i - k * p]
    decreases k
  {
    if k > 0 {
      assert k * p == (k - 1) * p + p;
      PeriodicShift(s, p, start, end, i, k - 1);
      var j := i - (k - 1) * p;
      assert start <= j;
    }
  }

  /** Copying from a multiple of the period back extends the stretch. */
  lemma {:induction false} ExtendPeriodic(s: seq<byte>, p: nat, start: nat, end: nat, m: nat, k: nat)
    requires Periodic(s, p, start, end) && end + m <= |s|
    requires k >= 1 && start - p + k * p <= end
    requires forall i :: end <= i < end + m ==> s[i] == s[i - k * p]
    ensures Periodic(s, p, start, end + m)
    decreases m
  {
    if m > 0 {
      ExtendPeriodic(s, p, start, end, m - 1, k);
      var i := end + m - 1;
      assert k * p == (k - 1) * p + p;
      if i - p >= start - p + (k - 1) * p {
        PeriodicShift(s, p, start, i, i - p, k - 1);
        assert i - p - (k - 1) * p == i - k * p;
      }
    }
  }

  /** All eight bytes are read before any is written. */
  method UnalignedCopy64(buf: array<byte>, src: nat, dst: nat)
    requires src + 8 <= buf.Length && dst + 8 <= buf.Length
    modifies buf
    ensures forall i {:trigger buf[i]} :: 0 <= i < buf.Length ==>
              buf[i] == if dst <= i < dst + 8 then old(buf[src + (i - dst)]) else old(buf[i])
  {
    forall i | 0 <= i < 8 {
      buf[dst + i] := buf[src + i];
    }
  }

  /** What every stage of a copy keeps: the bytes before it, the bytes past the buffer limit, and
      the periodic stretch written so far. */
  ghost predicate Stage(was: seq<byte>, now: seq<byte>, p: nat, start: nat, op: nat, bufLimit: nat) {
    && |now| == |was| && start <= op <= bufLimit <= |was| && Periodic(now, p, start, op)
    && now[..start] == was[..start] && now[bufLimit..] == was[bufLimit..]
  }

  /** One wide copy from k periods back: the first m of its eight bytes extend the stretch. */
  lemma WideStep(was: seq<byte>, before: seq<byte>, now: seq<byte>, p: nat, start: nat, op: nat, bufLimit: nat, k: nat,
                 m: nat)
    requires Stage(was, before, p, start, op, bufLimit) && |now| == |was|
    requires k >= 1 && start - p + k * p <= op && op + 8 <= bufLimit && m <= 8 && m <= k * p
    requires forall i {:trigger now[i]} :: 0 <= i < |now| ==>
               now[i] == if op <= i < op + 8 then before[i - k * p] else before[i]
    ensures Stage(was, now, p, start, op + m, bufLimit)
  {
    hide CopyFrom;
    assert now[..start] == before[..start];
    assert now[bufLimit..] == before[bufLimit..];
    assert Periodic(now, p, start, op);
    forall i | op <= i < op + m
      ensures now[i] == now[i - k * p]
    {
      assert i - k * p < op;
    }
    ExtendPeriodic(now, p, start, op, m, k);
  }

  /** A wide copy as a stage of the whole: its first m bytes extend the stretch. */
  method WideCopy(buf: array<byte>, src: nat, op: nat, ghost was: seq<byte>, ghost p: nat, ghost start: nat,
                  ghost bufLimit: nat, ghost k: nat, ghost m: nat)
    requires Stage(was, buf[..], p, start, op, bufLimit)
    requires k >= 1 && op - src == k * p && start - p <= src && op + 8 <= bufLimit <= buf.Length && m <= 8 && m <= k * p
    modifies buf
    ensures Stage(was, buf[..], p, start, op + m, bufLimit)
  {
    ghost var before := buf[..];
    UnalignedCopy64(buf, src, op);
    WideStep(was, before, buf[..], p, start, op, bufLimit, k, m);
  }

  method IncrementalCopySlow(buf: array<byte>, src0: nat, op0: nat, opLimit: nat,
                             ghost was: seq<byte>, ghost p: nat, ghost start: nat, ghost bufLimit: nat, ghost k: nat)
    requires src0 < op0 && opLimit <= bufLimit
    requires Stage(was, buf[..], p, start, op0, bufLimit)
    requires k >= 1 && op0 - src0 == k * p && start - p <= src0
    modifies buf
    ensures opLimit >= op0 ==> Stage(was, buf[..], p, start, opLimit, bufLimit)
    ensures opLimit < op0 ==> buf[..] == old(buf[..])
  {
    var src, op := src0, op0;
    while op < opLimit
      invariant op0 <= op && (op0 <= opLimit ==> op <= opLimit)
      invariant op - src == k * p && start - p <= src
      invariant Stage(was, buf[..], p, start, op, bufLimit)
      invariant opLimit < op0 ==> buf[..] == old(buf[..])
    {
      ghost var before := buf[..];
      buf[op] := buf[src];
      NarrowStep(was, before, buf[..], p, start, op, bufLimit, k);
      src, op := src + 1, op + 1;
    }
  }

  lemma NarrowStep(was: seq<byte>, before: seq<byte>, now: seq<byte>, p: nat, start: nat, op: nat, bufLimit: nat,
                   k: nat)
    requires Stage(was, before, p, start, op, bufLimit) && op < bufLimit
    requires k >= 1 && start - p + k * p <= op
    requires now == before[op := before[op - k * p]]
    ensures Stage(was, now, p, start, op + 1, bufLimit)
  {
    assert now[..start] == before[..start];
    assert now[bufLimit..] == before[bufLimit..];
    assert Periodic(now, p, start, op);
    assert k * p >= p by { assert k * p == (k - 1) * p + p; }
    ExtendPeriodic(now, p, start, op, 1, k);
  }

  /** Double a pattern of less than eight bytes until it has at least eight. */
  method GrowPattern(buf: array<byte>, src: nat, op0: nat, ghost was: seq<byte>, ghost bufLimit: nat)
    returns (op: nat, ghost k: nat)
    requires src < op0 && op0 - src < 8 && op0 + 14 <= bufLimit <= buf.Length
    requires Stage(was, buf[..], op0 - src, op0, op0, bufLimit)
    modifies buf
    ensures k >= 1 && op - src == k * (op0 - src) >= 8 && op <= op0 + 14
    ensures Stage(was, buf[..], op0 - src, op0, op, bufLimit)
  {
    hide Stage, Periodic;
    ghost var p := op0 - src;
    op, k := op0, 1;
    var patternSize := op - src;
    while patternSize < 8
      invariant patternSize == op - src == k * p && k >= 1
      invariant p <= patternSize < 16 && op == op0 + (patternSize - p)
      invariant Stage(was, buf[..], p, op0, op, bufLimit)
      decreases 8 - patternSize
    {
      WideCopy(buf, src, op, was, p, op0, bufLimit, k, patternSize);
      op := op + patternSize;
      patternSize := patternSize * 2;
      k := 2 * k;
    }
  }

  /** The fast copy. On [op, opLimit) it leaves what copying byte by byte would; it may also write
      between opLimit and bufLimit, but never at or past bufLimit. */
  method IncrementalCopy(buf: array<byte>, src0: nat, op0: nat, opLimit: nat, bufLimit: nat)
    requires src0 < op0 <= opLimit <= bufLimit <= buf.Length
    modifies buf
    ensures buf[..opLimit] == CopyFrom(old(buf[..op0]), op0 - src0, opLimit - op0)
    ensures buf[bufLimit..] == old(buf[bufLimit..])
  {
    hide CopyFrom, Stage, Periodic;
    ghost var was := buf[..];
    assert was[..op0] == old(buf[..op0]) && was[bufLimit..] == old(buf[bufLimit..]);
    ghost var p, k: nat := op0 - src0, 1;
    StageStart(was, p, op0, bufLimit);
    var src, op := src0, op0;
    if op - src < 8 {
      if op + 14 <= bufLimit {
        op, k := GrowPattern(buf, src, op, was, bufLimit);
        if op >= opLimit {
          StageEnd(was, buf[..], p, op0, op, opLimit, bufLimit);
          return;
        }
      } else {
        IncrementalCopySlow(buf, src, op, opLimit, was, p, op0, bufLimit, 1);
        StageEnd(was, buf[..], p, op0, opLimit, opLimit, bufLimit);
        return;
      }
    }
    while op + 16 <= bufLimit
      invariant op - src == k * p >= 8 && k >= 1 && op0 - p <= src
      invariant Stage(was, buf[..], p, op0, op, bufLimit)
      decreases bufLimit - op
    {
      WideCopy(buf, src, op, was, p, op0, bufLimit, k, 8);
      WideCopy(buf, src + 8, op + 8, was, p, op0, bufLimit, k, 8);
      src, op := src + 16, op + 16;
      if op >= opLimit {
        StageEnd(was, buf[..], p, op0, op, opLimit, bufLimit);
        return;
      }
    }
    if op + 8 <= bufLimit {
      WideCopy(buf, src, op, was, p, op0, bufLimit, k, 8);
      src, op := src + 8, op + 8;
    }
    IncrementalCopySlow(buf, src, op, opLimit, was, p, op0, bufLimit, k);
    StageEnd(was, buf[..], p, op0, if op < opLimit then opLimit else op, opLimit, bufLimit);
  }

  lemma StageStart(was: seq<byte>, p: nat, start: nat, bufLimit: nat)
    requires 1 <= p <= start <= bufLimit <= |was|
    ensures Stage(was, was, p, start, start, bufLimit)
  {
  }

  lemma StageEnd(was: seq<byte>, now: seq<byte>, p: nat, start: nat, op: nat, opLimit: nat, bufLimit: nat)
    requires Stage(was, now, p, start, op, bufLimit) && start <= opLimit <= op
    ensures 1 <= p <= start <= |was| && bufLimit <= |was| == |now|
    ensures now[..opLimit] == CopyFrom(was[..start], p, opLimit - start)
    ensures now[bufLimit..] == was[bufLimit..]
  {
    assert Periodic(now, p, start, opLimit);
    PeriodicIsCopy(now, p, start, opLimit);
  }

  /** A copy between buffers that do not overlap. */
  method MemCopy(dst: array<byte>, at: nat, data: seq<byte>)
    requires at + |data| <= dst.Length
    modifies dst
    ensures dst[..at] == old(dst[..at]) && dst[at..at+|data|] == data && dst[at+|data|..] == old(dst[at+|data|..])
  {
    forall i | 0 <= i < |data| {
      dst[at + i] := data[i];
    }
  }
}

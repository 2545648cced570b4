/** The compressor: writing tags into an output buffer, and scanning one block for matches. */
module SnappyCompress {
  import opened Bytes
  import opened SnappyFormat
  import opened SnappyMatch
  import opened SnappyStream

  const INPUT_MARGIN_BYTES := 15

  function MaxCompressedLength(n: nat): nat { 32 + n + n / 6 }

  /** The buffer holds exactly the bytes of these tags. */
  ghost predicate Written(dst: array<byte>, op: nat, ts: seq<Tag>)
    reads dst
  {
    op <= dst.Length && AllEncodable(ts) && dst[..op] == StreamBytes(ts)
  }

  // ----- writing tags

  /** A literal; the fast path copies sixteen bytes whatever the length. */
  method EmitLiteral(dst: array<byte>, op: nat, input: seq<byte>, start: nat, len: nat, allowFastPath: bool,
                     ghost ts: seq<Tag>)
    returns (end: nat)
    requires Written(dst, op, ts)
    requires 1 <= len <= BLOCK_SIZE && start + len <= |input|
    requires allowFastPath ==> start + 16 <= |input| && op + 17 <= dst.Length
    requires op + 3 + len <= dst.Length
    modifies dst
    ensures Written(dst, end, ts + [Literal(input[start..start+len])])
    ensures end == op + |LiteralHeader(len)| + len
  {
    hide LiteralHeader, StreamBytes, AllEncodable;
    ghost var was := dst[..op];
    HeaderLength(len);
    if allowFastPath && len <= 16 {
      end := op + 1 + len;
      EmitShort(dst, op, input, start, len);
    } else {
      var p := WriteHeader(dst, op, len - 1);
      end := p + len;
      CopyIn(dst, p, input, start, len);
      assert dst[..op] == dst[..p][..op] && dst[op..p] == dst[..p][op..];
      assert dst[..end] == dst[..op] + (dst[op..p] + dst[p..end]);
    }
    LiteralWritten(dst, end, ts, was, input[start..start+len]);
  }

  method EmitShort(dst: array<byte>, op: nat, input: seq<byte>, start: nat, len: nat)
    requires 1 <= len <= 16 && start + 16 <= |input| && op + 17 <= dst.Length
    modifies dst
    ensures dst[..op+1+len] == old(dst[..op]) + (LiteralHeader(len) + input[start..start+len])
  {
    dst[op] := 4 * (len - 1);
    forall i | 0 <= i < 16 {
      dst[op + 1 + i] := input[start + i];
    }
  }

  method CopyIn(dst: array<byte>, p: nat, input: seq<byte>, start: nat, len: nat)
    requires start + len <= |input| && p + len <= dst.Length
    modifies dst
    ensures dst[..p] == old(dst[..p]) && dst[p..p+len] == input[start..start+len]
  {
    forall i | 0 <= i < len {
      dst[p + i] := input[start + i];
    }
  }

  lemma LiteralWritten(dst: array<byte>, end: nat, ts: seq<Tag>, was: seq<byte>, data: seq<byte>)
    requires end <= dst.Length && 1 <= |data| <= BLOCK_SIZE && AllEncodable(ts) && was == StreamBytes(ts)
    requires dst[..end] == was + (LiteralHeader(|data|) + data)
    ensures Written(dst, end, ts + [Literal(data)])
  {
    hide LiteralHeader, StreamBytes;
    ExpandAppend(ts, Literal(data), []);
  }

  method WriteHeader(dst: array<byte>, op: nat, len1: nat) returns (p: nat)
    requires len1 < BLOCK_SIZE && op + 3 <= dst.Length
    modifies dst
    ensures p == op + |LiteralHeader(len1 + 1)| && p <= dst.Length
    ensures dst[..op] == old(dst[..op]) && dst[op..p] == LiteralHeader(len1 + 1)
  {
    if len1 < 60 {
      dst[op] := 4 * len1;
      return op + 1;
    }
    hide LengthBytes, LiteralHeader;
    HeaderLength(len1 + 1);
    HeaderIs(len1);
    var count := WriteLength(dst, op + 1, len1);
    p := op + 1 + count;
    assert dst[..op] == dst[..op+1][..op];
    dst[op] := 4 * (59 + count);
    assert dst[op..p] == [dst[op]] + dst[op+1..p];
  }

  /** The bytes of a length, lowest first, and how many there are. */
  method WriteLength(dst: array<byte>, op: nat, len1: nat) returns (count: nat)
    requires op + |LengthBytes(len1)| <= dst.Length
    modifies dst
    ensures count == |LengthBytes(len1)| && dst[..op] == old(dst[..op]) && dst[op..op+count] == LengthBytes(len1)
  {
    hide LengthBytes;
    ghost var all := LengthBytes(len1);
    var n := len1;
    count := 0;
    while n > 0
      invariant count + |LengthBytes(n)| == |all| && LengthBytes(n) == all[count..]
      invariant dst[..op] == old(dst[..op]) && dst[op..op+count] == all[..count]
    {
      LengthBytesStep(n);
      dst[op+count] := n % 256;
      n := n / 256;
      count := count + 1;
      assert dst[op..op+count] == dst[op..op+count-1] + [dst[op+count-1]];
    }
    LengthBytesStep(0);
  }

  lemma LengthBytesStep(n: nat)
    ensures LengthBytes(n) == if n == 0 then [] else [n % 256] + LengthBytes(n / 256)
  {
  }

  lemma HeaderIs(len1: nat)
    requires 60 <= len1 < BLOCK_SIZE
    ensures |LengthBytes(len1)| <= 2 && LiteralHeader(len1 + 1) == [4 * (59 + |LengthBytes(len1)|)] + LengthBytes(len1)
  {
    LengthBytesShort(len1);
  }

  /** A copy of at most 64 bytes; the wide form stores four bytes and keeps three. */
  method EmitCopyAtMost64(dst: array<byte>, op: nat, offset: nat, len: nat, lenLessThan12: bool, ghost ts: seq<Tag>)
    returns (end: nat)
    requires Written(dst, op, ts) && op + 4 <= dst.Length
    requires 1 <= offset < BLOCK_SIZE && 4 <= len <= 64 && lenLessThan12 == (len < 12)
    modifies dst
    ensures Written(dst, end, ts + [Copy(offset, len)])
    ensures end == op + |CopyBytes(offset, len)|
  {
    hide StreamBytes, AllEncodable;
    ghost var was := dst[..op];
    if lenLessThan12 && offset < 2048 {
      dst[op] := 1 + 4 * (len - 4) + 32 * (offset / 256);
      dst[op + 1] := offset % 256;
      end := op + 2;
    } else {
      var u := 2 + 4 * (len - 1) + 256 * offset;
      assert u % 256 == 2 + 4 * (len - 1) && u / 256 == offset;
      dst[op] := u % 256;
      dst[op + 1] := u / 256 % 256;
      dst[op + 2] := u / 256 / 256;
      dst[op + 3] := 0;
      end := op + 3;
    }
    assert dst[..op] == was;
    assert dst[..end] == was + CopyBytes(offset, len);
    CopyWritten(dst, end, ts, was, offset, len);
  }

  lemma CopyWritten(dst: array<byte>, end: nat, ts: seq<Tag>, was: seq<byte>, offset: nat, len: nat)
    requires end <= dst.Length && 1 <= offset < BLOCK_SIZE && 4 <= len <= 64 && AllEncodable(ts)
             && was == StreamBytes(ts)
    requires dst[..end] == was + CopyBytes(offset, len)
    ensures Written(dst, end, ts + [Copy(offset, len)])
  {
    hide CopyBytes, StreamBytes;
    ExpandAppend(ts, Copy(offset, len), []);
  }

  /** A match of any length, as copies of at most 64 bytes that each leave at least four. */
  method EmitCopy(dst: array<byte>, op0: nat, offset: nat, len0: nat, lenLessThan12: bool, ghost ts0: seq<Tag>)
    returns (op: nat)
    requires Written(dst, op0, ts0) && op0 + len0 <= dst.Length
    requires 1 <= offset < BLOCK_SIZE && len0 >= 4 && lenLessThan12 == (len0 < 12)
    modifies dst
    ensures Written(dst, op, ts0 + CopyPieces(offset, len0))
  {
    hide Written, CopyBytes;
    ghost var ts := ts0;
    var len := len0;
    op := op0;
    if lenLessThan12 {
      op := EmitCopyAtMost64(dst, op, offset, len, true, ts);
      return;
    }
    while len >= 68
      invariant 4 <= len <= len0 && op <= op0 + (len0 - len)
      invariant Written(dst, op, ts)
      invariant ts + CopyPieces(offset, len) == ts0 + CopyPieces(offset, len0)
    {
      assert ts + CopyPieces(offset, len) == ts + [Copy(offset, 64)] + CopyPieces(offset, len - 64);
      op := EmitCopyAtMost64(dst, op, offset, 64, false, ts);
      ts := ts + [Copy(offset, 64)];
      len := len - 64;
    }
    if len > 64 {
      assert ts + CopyPieces(offset, len) == ts + [Copy(offset, 60)] + [Copy(offset, len - 60)];
      op := EmitCopyAtMost64(dst, op, offset, 60, false, ts);
      ts := ts + [Copy(offset, 60)];
      len := len - 60;
    }
    assert ts + [Copy(offset, len)] == ts0 + CopyPieces(offset, len0);
    op := EmitCopyAtMost64(dst, op, offset, len, len < 12, ts);
  }

  // ----- the hash table

  /** Every entry is a position before the bound. */
  ghost predicate Before(table: array<nat>, bound: nat)
    reads table
  {
    forall h :: 0 <= h < table.Length ==> table[h] < bound
  }

  /** The hash may be any function into the table. */
  ghost predicate HashInto(hash: nat -> nat, size: nat) { forall v :: hash(v) < size }

  /** How far the scan has slowed after k looks, in 32nds of a byte. */
  function Pace(k: nat): (r: nat)
    ensures r >= 32
  {
    if k == 0 then 32 else Pace(k - 1) + Pace(k - 1) / 32
  }

  /** The k-th position looked at: one byte on at first, ever more later. */
  function Probe(ip: nat, k: nat): (r: nat)
    ensures r >= ip + k
  {
    if k == 0 then ip else Probe(ip, k - 1) + Pace(k - 1) / 32
  }

  function HashAt(input: seq<byte>, hash: nat -> nat, p: nat): nat {
    if p + 4 <= |input| then hash(Load32(input, p)) else 0
  }

  /** The table once the first k positions are noted. */
  ghost function Noted(table: seq<nat>, input: seq<byte>, hash: nat -> nat, ip: nat, k: nat): (r: seq<nat>)
    ensures |r| == |table|
  {
    if k == 0 then table
    else
      var before, p := Noted(table, input, hash, ip, k - 1), Probe(ip, k - 1);
      var h := HashAt(input, hash, p);
      if h < |before| then before[h := p] else before
  }

  /** The position last noted for the four bytes at the k-th one. */
  ghost function Suggested(table: seq<nat>, input: seq<byte>, hash: nat -> nat, ip: nat, k: nat): nat {
    var before, h := Noted(table, input, hash, ip, k), HashAt(input, hash, Probe(ip, k));
    if h < |before| then before[h] else 0
  }

  ghost predicate SameFour(input: seq<byte>, p: nat, q: nat) {
    p + 4 <= |input| && q + 4 <= |input| && input[p..p+4] == input[q..q+4]
  }

  ghost predicate Hit(table: seq<nat>, input: seq<byte>, hash: nat -> nat, ip: nat, k: nat) {
    SameFour(input, Suggested(table, input, hash, ip, k), Probe(ip, k))
  }

  /** Scan forward for four bytes that occurred before, looking at ever fewer positions: the first hit, or none
      before the limit. */
  method FindCandidate(input: seq<byte>, ip0: nat, ipLimit: nat, table: array<nat>, hash: nat -> nat, hash0: nat)
    returns (found: bool, ip: nat, candidate: nat, ghost k: nat)
    requires ip0 + 4 <= |input| && ipLimit + 4 <= |input| && ip0 >= 1
    requires HashInto(hash, table.Length) && hash0 == hash(Load32(input, ip0)) && Before(table, ip0)
    modifies table
    ensures ip >= ip0 && ip == Probe(ip0, k)
    ensures forall j :: 0 <= j < k ==> !Hit(old(table[..]), input, hash, ip0, j)
    ensures found <==> Probe(ip0, k + 1) <= ipLimit
    ensures found ==> Hit(old(table[..]), input, hash, ip0, k)
                      && candidate == Suggested(old(table[..]), input, hash, ip0, k)
                      && table[..] == Noted(old(table[..]), input, hash, ip0, k + 1)
    ensures found ==> ip < ipLimit && candidate < ip && Before(table, ip + 1)
    ensures found ==> input[candidate..candidate+4] == input[ip..ip+4]
  {
    hide Load32, Hit, Suggested, Noted, Pace, Probe, SameFour;
    ghost var was := table[..];
    var skip, nextIp, nextHash := 32, ip0, hash0;
    k := 0;
    NothingNoted(was, input, hash, ip0);
    while true
      invariant skip == Pace(k) && skip >= 32 && ip0 <= nextIp == Probe(ip0, k) && nextIp + 4 <= |input|
      invariant nextHash == hash(Load32(input, nextIp))
      invariant Before(table, nextIp) && table[..] == Noted(was, input, hash, ip0, k)
      invariant forall j :: 0 <= j < k ==> !Hit(was, input, hash, ip0, j)
      decreases |input| - nextIp
    {
      ip := nextIp;
      var h := nextHash;
      var bytesBetweenHashLookups := skip / 32;
      NextProbe(ip0, k);
      skip := skip + bytesBetweenHashLookups;
      nextIp := ip + bytesBetweenHashLookups;
      if nextIp > ipLimit {
        return false, ip, 0, k;
      }
      nextHash := hash(Load32(input, nextIp));
      candidate := table[h];
      NoteOne(was, input, hash, ip0, k, table[..]);
      table[h] := ip;
      Load32Same(input, candidate, ip);
      if Load32(input, ip) == Load32(input, candidate) {
        return true, ip, candidate, k;
      }
      k := k + 1;
    }
  }

  lemma NothingNoted(table: seq<nat>, input: seq<byte>, hash: nat -> nat, ip: nat)
    ensures Noted(table, input, hash, ip, 0) == table && Probe(ip, 0) == ip && Pace(0) == 32
  {
  }

  lemma NextProbe(ip: nat, k: nat)
    ensures Probe(ip, k + 1) == Probe(ip, k) + Pace(k) / 32 && Pace(k + 1) == Pace(k) + Pace(k) / 32
  {
  }

  lemma NoteOne(table: seq<nat>, input: seq<byte>, hash: nat -> nat, ip: nat, k: nat, now: seq<nat>)
    requires now == Noted(table, input, hash, ip, k) && Probe(ip, k) + 4 <= |input|
    requires hash(Load32(input, Probe(ip, k))) < |now|
    ensures var p := Probe(ip, k);
            var h := hash(Load32(input, p));
            && Suggested(table, input, hash, ip, k) == now[h]
            && Noted(table, input, hash, ip, k + 1) == now[h := p]
            && (Hit(table, input, hash, ip, k) <==> SameFour(input, now[h], p))
  {
    hide Load32;
  }

  lemma Load32Same(input: seq<byte>, p: nat, q: nat)
    requires p + 4 <= |input| && q + 4 <= |input|
    ensures Load32(input, q) == Load32(input, p) <==> SameFour(input, p, q)
    ensures SameFour(input, p, q) <==> input[p..p+4] == input[q..q+4]
  {
    if Load32(input, q) == Load32(input, p) { Load32Equal(input, p, q); }
    if input[p..p+4] == input[q..q+4] {
      var a, b := input[p..p+4], input[q..q+4];
      assert a[0] == b[0] && a[1] == b[1] && a[2] == b[2] && a[3] == b[3];
    }
  }

  /** After a match: record the last two positions, and see whether the next four bytes occurred before. */
  method Rehash(input: seq<byte>, ip: nat, table: array<nat>, hash: nat -> nat, ghost bound: nat)
    returns (candidate: nat, more: bool, nextHash: nat)
    requires 1 <= ip && ip + 7 <= |input| && HashInto(hash, table.Length) && bound <= ip && Before(table, bound)
    modifies table
    ensures Before(table, ip + 1) && nextHash == hash(Load32(input, ip + 1))
    ensures var last, here := hash(Load32(input, ip - 1)), hash(Load32(input, ip));
            && candidate == old(table[..])[last := ip - 1][here]
            && table[..] == old(table[..])[last := ip - 1][here := ip]
    ensures candidate < ip && (more <==> input[candidate..candidate+4] == input[ip..ip+4])
  {
    hide Load32, Load64, GetUint32AtOffset;
    var inputBytes := Load64(input, ip - 1);
    Uint32AtOffset(input, ip - 1, 0);
    Uint32AtOffset(input, ip - 1, 1);
    Uint32AtOffset(input, ip - 1, 2);
    var prevHash := hash(GetUint32AtOffset(inputBytes, 0));
    table[prevHash] := ip - 1;
    var curHash := hash(GetUint32AtOffset(inputBytes, 1));
    candidate := table[curHash];
    var candidateBytes := Load32(input, candidate);
    table[curHash] := ip;
    more := GetUint32AtOffset(inputBytes, 1) == candidateBytes;
    Load32Same(input, candidate, ip);
    nextHash := hash(GetUint32AtOffset(inputBytes, 2));
  }

  // ----- one block

  /** The tags written when a literal of [e, ip) may be pending before a match at ip. */
  function Pending(ts: seq<Tag>, input: seq<byte>, e: nat, ip: nat): seq<Tag>
    requires e <= ip <= |input|
  {
    if e < ip then ts + [Literal(input[e..ip])] else ts
  }

  ghost predicate Pended(ts: seq<Tag>, input: seq<byte>, e: nat, ip: nat) {
    Covers(ts, input, e) && e <= ip <= |input| <= BLOCK_SIZE
  }

  /** Emit the copy for a four-byte match at ip, extended as far as the input matches. */
  method EmitMatch(input: seq<byte>, dst: array<byte>, op0: nat, ip0: nat, candidate: nat, ghost ts0: seq<Tag>,
                   ghost e: nat)
    returns (op: nat, ip: nat, ghost ts: seq<Tag>)
    requires Pended(ts0, input, e, ip0) && Written(dst, op0, Pending(ts0, input, e, ip0))
    requires op0 <= ip0 + ip0 / 60 + 3 && dst.Length >= MaxCompressedLength(|input|)
    requires candidate < ip0 && ip0 + 4 <= |input| && input[candidate..candidate+4] == input[ip0..ip0+4]
    modifies dst
    ensures ip0 + 4 <= ip <= |input| && Covers(ts, input, ip) && Written(dst, op, ts)
    ensures ts == Pending(ts0, input, e, ip0) + CopyPieces(ip0 - candidate, ip - ip0)
    ensures input[candidate..candidate+(ip-ip0)] == input[ip0..ip]
    ensures ip == |input| || input[ip] != input[candidate + (ip - ip0)]
  {
    hide Covers, Written, CopyPieces;
    var n, lessThan8 := FindMatchLength(input, candidate + 4, ip0 + 4, |input|);
    var matched := 4 + n;
    assert input[candidate..candidate+matched] == input[ip0..ip0+matched] by {
      assert input[candidate..candidate+matched] == input[candidate..candidate+4] + input[candidate+4..candidate+4+n];
      assert input[ip0..ip0+matched] == input[ip0..ip0+4] + input[ip0+4..ip0+4+n];
    }
    ghost var pending := Pending(ts0, input, e, ip0);
    ip := ip0 + matched;
    var offset := ip0 - candidate;
    op := EmitCopy(dst, op0, offset, matched, lessThan8, pending);
    ts := pending + CopyPieces(offset, matched);
    if e < ip0 {
      CoverItem(ts0, input, e, ip0, candidate, matched);
    } else {
      CoverCopy(ts0, input, ip0, candidate, matched);
    }
  }

  lemma CoversStart(input: seq<byte>)
    ensures Covers([], input, 0)
  {
    assert input[..0] == [];
  }

  lemma WrittenNothing(dst: array<byte>)
    ensures Written(dst, 0, [])
  {
  }

  lemma CoversAll(ts: seq<Tag>, input: seq<byte>)
    requires Covers(ts, input, |input|)
    ensures Expand(ts, []) == Good(input)
  {
    assert input[..|input|] == input;
  }

  lemma WrittenLength(dst: array<byte>, op: nat, ts: seq<Tag>)
    requires Written(dst, op, ts)
    ensures op == |StreamBytes(ts)|
  {
  }

  lemma CoversLength(ts: seq<Tag>, input: seq<byte>, e: nat, dst: array<byte>, op: nat)
    requires Covers(ts, input, e) && Written(dst, op, ts)
    ensures op <= e + e / 60
  {
  }

  /** A match of length n at ip, as long as it can be. */
  ghost predicate LongestMatch(input: seq<byte>, candidate: nat, ip: nat, n: nat) {
    && candidate < ip && 4 <= n && ip + n <= |input| && input[candidate..candidate+n] == input[ip..ip+n]
    && (ip + n == |input| || input[ip+n] != input[candidate+n])
  }

  /** Emit the match found, then one after the other while the bytes behind a match have occurred before. */
  method EmitMatches(input: seq<byte>, dst: array<byte>, table: array<nat>, hash: nat -> nat, ipLimit: nat,
                     op0: nat, ip0: nat, candidate0: nat, ghost ts0: seq<Tag>, ghost e: nat)
    returns (op: nat, ip: nat, nextHash: nat, ghost ts: seq<Tag>, ghost n: nat)
    requires Pended(ts0, input, e, ip0) && Written(dst, op0, Pending(ts0, input, e, ip0))
    requires op0 <= ip0 + ip0 / 60 + 3 && dst.Length >= MaxCompressedLength(|input|) && dst as object != table as object
    requires candidate0 < ip0 && ip0 + 4 <= |input| && input[candidate0..candidate0+4] == input[ip0..ip0+4]
    requires ipLimit + INPUT_MARGIN_BYTES == |input| && HashInto(hash, table.Length) && Before(table, ip0 + 1)
    modifies dst, table
    ensures ip0 + 4 <= ip <= |input| && Covers(ts, input, ip) && Written(dst, op, ts)
    ensures ip < ipLimit ==> Before(table, ip + 1) && nextHash == hash(Load32(input, ip + 1))
    ensures LongestMatch(input, candidate0, ip0, n)
            && Pending(ts0, input, e, ip0) + CopyPieces(ip0 - candidate0, n) <= ts
  {
    hide Covers, Written, Load32, Before, Load64, CopyPieces, LongestMatch;
    op, ip, ts := EmitMatch(input, dst, op0, ip0, candidate0, ts0, e);
    n, nextHash := ip - ip0, 0;
    ItIsLongest(input, candidate0, ip0, n);
    ghost var first, bound: nat := ts, ip0 + 1;
    while ip < ipLimit
      invariant ip0 + 4 <= ip <= |input| && bound <= ip && Before(table, bound)
      invariant Covers(ts, input, ip) && Written(dst, op, ts) && first <= ts
      decreases |input| - ip
    {
      CoversLength(ts, input, ip, dst, op);
      var candidate, more;
      candidate, more, nextHash := Rehash(input, ip, table, hash, bound);
      if !more {
        return;
      }
      bound := ip + 1;
      PendedNow(ts, input, ip);
      op, ip, ts := EmitMatch(input, dst, op, ip, candidate, ts, ip);
    }
  }

  lemma ItIsLongest(input: seq<byte>, candidate: nat, ip: nat, n: nat)
    requires candidate < ip && 4 <= n && ip + n <= |input| && input[candidate..candidate+n] == input[ip..ip+n]
    requires ip + n == |input| || input[ip+n] != input[candidate+n]
    ensures LongestMatch(input, candidate, ip, n)
  {
  }

  lemma PendedNow(ts: seq<Tag>, input: seq<byte>, ip: nat)
    requires Covers(ts, input, ip) && ip <= |input| <= BLOCK_SIZE
    ensures Pended(ts, input, ip, ip) && Pending(ts, input, ip, ip) == ts
  {
  }

  /** A block whose first four bytes are there again one byte later begins with one literal byte and then the
      longest copy of what precedes it. */
  ghost predicate Begun(input: seq<byte>, ts: seq<Tag>) {
    |input| >= 17 && SameFour(input, 0, 1) ==>
      exists n: nat :: LongestMatch(input, 0, 1, n) && [Literal(input[..1])] + CopyPieces(1, n) <= ts
  }

  lemma BegunStays(input: seq<byte>, ts: seq<Tag>, now: seq<Tag>)
    requires Begun(input, ts) && ts <= now
    ensures Begun(input, now)
  {
    hide LongestMatch, CopyPieces, SameFour;
    if |input| >= 17 && SameFour(input, 0, 1) {
      var n: nat :| LongestMatch(input, 0, 1, n) && [Literal(input[..1])] + CopyPieces(1, n) <= ts;
      assert [Literal(input[..1])] + CopyPieces(1, n) <= now;
    }
  }

  /** The first look finds what is there one byte back. */
  lemma FirstLook(table: seq<nat>, input: seq<byte>, hash: nat -> nat, k: nat, found: bool)
    requires |input| >= 17 && SameFour(input, 0, 1) && (forall h :: 0 <= h < |table| ==> table[h] == 0)
    requires forall j :: 0 <= j < k ==> !Hit(table, input, hash, 1, j)
    requires found <==> Probe(1, k + 1) <= |input| - INPUT_MARGIN_BYTES
    ensures k == 0 && found && Probe(1, 0) == 1 && Suggested(table, input, hash, 1, 0) == 0
  {
    hide Load32;
    assert Hit(table, input, hash, 1, 0);
    assert Probe(1, 1) == 1 + Pace(0) / 32;
  }

  lemma NotBegun(input: seq<byte>, ts: seq<Tag>)
    requires !Begun(input, ts)
    ensures |input| >= 17 && SameFour(input, 0, 1)
  {
  }

  lemma AllZero(table: array<nat>)
    requires Before(table, 1)
    ensures forall h :: 0 <= h < table.Length ==> table[..][h] == 0
  {
  }

  lemma RunStarted(input: seq<byte>, before: seq<Tag>, e: nat, ip: nat, candidate: nat, n: nat, ts: seq<Tag>)
    requires LongestMatch(input, candidate, ip, n) && e <= ip <= |input|
    requires Pending(before, input, e, ip) + CopyPieces(ip - candidate, n) <= ts
    requires Begun(input, before) || (before == [] && e == 0 && ip == 1 && candidate == 0)
    ensures Begun(input, ts)
  {
    hide LongestMatch, CopyPieces, SameFour;
    if Begun(input, before) {
      assert before <= Pending(before, input, e, ip) <= ts;
      BegunStays(input, before, ts);
    } else {
      assert Pending(before, input, e, ip) == [Literal(input[..1])];
      assert LongestMatch(input, 0, 1, n) && [Literal(input[..1])] + CopyPieces(1, n) <= ts;
    }
  }

  /** Compress one block. Nothing is assumed of the hash but its range, and every store stays inside
      a buffer of the advertised size. */
  method CompressFragment(input: seq<byte>, dst: array<byte>, table: array<nat>, hash: nat -> nat)
    returns (op: nat, ghost ts: seq<Tag>)
    requires |input| <= BLOCK_SIZE && dst.Length >= MaxCompressedLength(|input|)
    requires HashInto(hash, table.Length) && Before(table, 1) && dst as object != table as object
    modifies dst, table
    ensures Written(dst, op, ts) && Expand(ts, []) == Good(input)
    ensures op <= |input| + |input| / 60 + 1
    ensures Begun(input, ts)
  {
    hide Covers, Written, Expand, Load32, Before, Load64, LiteralHeader, StreamBytes, AllEncodable, CopyPieces;
    hide Begun, LongestMatch, SameFour, Hit, Suggested, Noted, Probe, Pace;
    var ip, nextEmit := 0, 0;
    op, ts := 0, [];
    CoversStart(input);
    WrittenNothing(dst);
    if !Begun(input, ts) { NotBegun(input, ts); }
    if |input| >= INPUT_MARGIN_BYTES {
      var ipLimit := |input| - INPUT_MARGIN_BYTES;
      ip := 1;
      var nextHash := hash(Load32(input, ip));
      while true
        invariant nextEmit < ip && ip + 14 <= |input|
        invariant nextHash == hash(Load32(input, ip)) && Before(table, ip)
        invariant Covers(ts, input, nextEmit) && Written(dst, op, ts)
        invariant Begun(input, ts) || (ip == 1 && nextEmit == 0 && ts == [])
        decreases |input| - ip
      {
        CoversLength(ts, input, nextEmit, dst, op);
        var found, at: nat, candidate: nat;
        ghost var looks: nat, was := 0, table[..];
        if ip == 1 { AllZero(table); }
        found, at, candidate, looks := FindCandidate(input, ip, ipLimit, table, hash, nextHash);
        if !Begun(input, ts) {
          NotBegun(input, ts);
          FirstLook(was, input, hash, looks, found);
        }
        if !found {
          break;
        }
        ip := at;
        var len := ip - nextEmit;
        HeaderLength(len);
        op := EmitLiteral(dst, op, input, nextEmit, len, true, ts);
        ghost var before, from, n := ts, ip, 0;
        op, ip, nextHash, ts, n := EmitMatches(input, dst, table, hash, ipLimit, op, ip, candidate, ts, nextEmit);
        RunStarted(input, before, nextEmit, from, candidate, n, ts);
        nextEmit := ip;
        if ip >= ipLimit {
          break;
        }
        ip := ip + 1;
      }
    }
    CoversLength(ts, input, nextEmit, dst, op);
    if nextEmit < |input| {
      CoverRemainder(ts, input, nextEmit);
      var len := |input| - nextEmit;
      op := EmitLiteral(dst, op, input, nextEmit, len, false, ts);
      assert input[nextEmit..nextEmit+len] == input[nextEmit..];
      BegunStays(input, ts, ts + [Literal(input[nextEmit..])]);
      ts := ts + [Literal(input[nextEmit..])];
      WrittenLength(dst, op, ts);
    } else {
      CoversAll(ts, input);
    }
  }
}

/** The four writers behind one contract: each accepts a piece of output exactly when it fits the
    expected length and finds its source, and each then holds the same bytes. */
module SnappyWriters {
  import opened Bytes
  import opened SnappyFormat
  import opened SnappyFlatWriters
  import opened SnappyScatteredWriter
  import IOV = SnappyIOVecWriter

  datatype Writer =
    | Flat(array: SnappyArrayWriter)
    | IOVec(iovec: IOV.IOVecWriter)
    | Scattered(scattered: ScatteredWriter)
    | Validating(validator: SnappyDecompressionValidator)

  ghost function Self(w: Writer): object {
    match w
    case Flat(a) => a
    case IOVec(v) => v
    case Scattered(s) => s
    case Validating(v) => v
  }

  /** Everything a writer may change. */
  ghost function Repr(w: Writer): (r: set<object>)
    reads Self(w)
    ensures Self(w) in r
  {
    match w
    case Flat(a) => {a, a.buf}
    case IOVec(v) => v.Repr()
    case Scattered(s) => s.Repr()
    case Validating(v) => {v}
  }

  ghost predicate Valid(w: Writer)
    reads Self(w), Repr(w)
  {
    match w
    case Flat(a) => a.Valid()
    case IOVec(v) => v.Valid()
    case Scattered(s) => s.Valid()
    case Validating(v) => v.Valid()
  }

  /** The bytes produced so far. */
  ghost function Contents(w: Writer): seq<byte>
    reads Self(w)
  {
    match w
    case Flat(a) => a.contents
    case IOVec(v) => v.contents
    case Scattered(s) => s.contents
    case Validating(v) => v.contents
  }

  ghost function Expected(w: Writer): nat
    reads Self(w)
  {
    match w
    case Flat(a) => a.expected
    case IOVec(v) => v.expected
    case Scattered(s) => s.expected
    case Validating(v) => v.expected
  }

  /** A writer nothing has been written to. */
  ghost predicate Empty(w: Writer)
    reads Self(w), Repr(w)
  {
    Valid(w) && Contents(w) == [] && (w.Scattered? ==> w.scattered.blocks == [])
  }

  /** The caller's buffers are large enough for n bytes. */
  ghost predicate CanHold(w: Writer, n: nat)
    reads Self(w)
  {
    n < SIZE_LIMIT &&
    match w
    case Flat(a) => n <= a.buf.Length
    case IOVec(v) => n <= IOV.Start(v.iov, |v.iov|)
    case Scattered(_) => true
    case Validating(_) => true
  }

  method SetExpectedLength(w: Writer, len: nat)
    requires Empty(w) && CanHold(w, len)
    modifies Repr(w)
    ensures Valid(w) && Contents(w) == [] && Expected(w) == len && Repr(w) == old(Repr(w))
  {
    match w
    case Flat(a) => a.SetExpectedLength(len);
    case IOVec(v) => v.SetExpectedLength(len);
    case Scattered(s) => s.SetExpectedLength(len);
    case Validating(v) => v.SetExpectedLength(len);
  }

  method CheckLength(w: Writer) returns (ok: bool)
    requires Valid(w)
    ensures ok == (|Contents(w)| == Expected(w)) && Valid(w)
  {
    match w
    case Flat(a) => ok := a.CheckLength();
    case IOVec(v) => ok := v.CheckLength();
    case Scattered(s) => ok := s.CheckLength();
    case Validating(v) => ok := v.CheckLength();
  }

  method Append(w: Writer, data: seq<byte>) returns (ok: bool)
    requires Valid(w)
    modifies Repr(w)
    ensures ok == (|old(Contents(w))| + |data| <= old(Expected(w)))
    ensures ok ==> Valid(w) && Contents(w) == old(Contents(w)) + data && Expected(w) == old(Expected(w))
    ensures fresh(Repr(w) - old(Repr(w)))
  {
    match w
    case Flat(a) => ok := a.Append(data);
    case IOVec(v) => IOVRepr(v); ok := v.Append(data);
    case Scattered(s) => ScatteredRepr(s); ok := s.Append(data);
    case Validating(v) => ok := v.Append(data);
  }

  /** May decline at any time; if it accepts, a whole tag is still buffered after the literal. */
  method TryFastAppend(w: Writer, input: seq<byte>, ip: nat, available: nat, len: nat) returns (ok: bool)
    requires Valid(w) && ip + available <= |input|
    modifies Repr(w)
    ensures Valid(w) && Expected(w) == old(Expected(w)) && Repr(w) == old(Repr(w))
    ensures ok ==> len + MAXIMUM_TAG_LENGTH <= available && len <= 16
                   && Contents(w) == old(Contents(w)) + input[ip..ip+len]
    ensures !ok ==> Contents(w) == old(Contents(w))
  {
    match w
    case Flat(a) => ok := a.TryFastAppend(input, ip, available, len);
    case IOVec(v) => IOVRepr(v); ok := v.TryFastAppend(input, ip, available, len);
    case Scattered(s) => ScatteredRepr(s); ok := s.TryFastAppend(input, ip, available, len);
    case Validating(v) => ok := false;
  }

  method AppendFromSelf(w: Writer, offset: nat, len: nat) returns (ok: bool)
    requires Valid(w) && offset < SIZE_LIMIT
    modifies Repr(w)
    ensures ok == (1 <= offset <= |old(Contents(w))| && |old(Contents(w))| + len <= old(Expected(w)))
    ensures ok ==> Valid(w) && Contents(w) == CopyFrom(old(Contents(w)), offset, len) && Expected(w) == old(Expected(w))
    ensures fresh(Repr(w) - old(Repr(w)))
  {
    match w
    case Flat(a) => ok := a.AppendFromSelf(offset, len);
    case IOVec(v) => IOVRepr(v); ok := v.AppendFromSelf(offset, len);
    case Scattered(s) => ScatteredRepr(s); ok := s.AppendFromSelf(offset, len);
    case Validating(v) => ok := v.AppendFromSelf(offset, len);
  }

  lemma ValidBounds(w: Writer)
    requires Valid(w)
    ensures |Contents(w)| <= Expected(w) < SIZE_LIMIT
  {
  }

  lemma ReprSelf(w: Writer)
    ensures Self(w) in Repr(w)
  {
  }

  lemma IOVRepr(v: IOV.IOVecWriter)
    ensures forall b :: b in v.iov ==> b in v.Repr()
  {
  }

  lemma ScatteredRepr(s: ScatteredWriter)
    ensures forall b :: b in s.blocks ==> b in s.Repr()
  {
  }
}

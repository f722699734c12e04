/** Octets, fixed-width big-endian integers, and the error values shared by every other module. */
module Bytes {

  type byte = x: int | 0 <= x < 0x100
  type u16 = x: int | 0 <= x < 0x1_0000
  type u32 = x: int | 0 <= x < 0x1_0000_0000
  type bytes = seq<byte>

  datatype Option<+T> = None | Some(value: T)

  /** The error values of package dns, together with the two end-of-input errors of package io. */
  datatype Error =
    | EOF
    | UnexpectedEOF
    | ZeroLengthLabel
    | LabelTooLong
    | NameTooLong
    | ReservedLabelType
    | TooManyPointers
    | TrailingBytes
    | IntegerOverflow
    | PacketTooLong

  datatype Result<+T> = Ok(value: T) | Err(error: Error) {
    predicate IsFailure() {
      Err?
    }

    function PropagateFailure<U>(): Result<U>
      requires Err?
    {
      Err(error)
    }

    function Extract(): T
      requires Ok?
    {
      value
    }
  }

  /** An item read from a buffer, and the position just after it. */
  datatype Parsed<+T> = Parsed(item: T, end: nat)

  /** What a read puts in a buffer of the given size: a longer datagram is cut. */
  function Buffered(datagram: bytes, size: nat): bytes {
    if |datagram| > size then datagram[..size] else datagram
  }

  function Max(a: int, b: int): int {
    if a < b then b else a
  }

  function U16(n: u16): (r: bytes)
    ensures |r| == 2
  {
    [n / 0x100, n % 0x100]
  }

  function U32(n: u32): (r: bytes)
    ensures |r| == 4
  {
    U16(n / 0x1_0000) + U16(n % 0x1_0000)
  }

  function FromU16(b: bytes): u16
    requires |b| == 2
  {
    var hi: int := b[0];
    hi * 0x100 + b[1]
  }

  function FromU32(b: bytes): u32
    requires |b| == 4
  {
    var hi: int := FromU16(b[..2]);
    hi * 0x1_0000 + FromU16(b[2..])
  }

  lemma U16RoundTrip(n: u16)
    ensures FromU16(U16(n)) == n
  {
  }

  lemma U32RoundTrip(n: u32)
    ensures FromU32(U32(n)) == n
  {
    assert U32(n)[..2] == U16(n / 0x1_0000) && U32(n)[2..] == U16(n % 0x1_0000);
  }

  /** n octets of buf starting at pos; the error tells apart "no octet left" and "too few octets left". */
  function Take(buf: bytes, pos: nat, n: nat): (r: Result<Parsed<bytes>>)
    ensures r.Ok? ==> r.value.end == pos + n && |r.value.item| == n && (n > 0 ==> pos + n <= |buf|)
  {
    if n == 0 then Ok(Parsed([], pos))
    else if pos >= |buf| then Err(EOF)
    else if pos + n > |buf| then Err(UnexpectedEOF)
    else Ok(Parsed(buf[pos..pos + n], pos + n))
  }

  function TakeU16(buf: bytes, pos: nat): (r: Result<Parsed<u16>>)
    ensures r.Ok? ==> r.value.end == pos + 2 <= |buf|
  {
    var t :- Take(buf, pos, 2);
    Ok(Parsed(FromU16(t.item), t.end))
  }

  function TakeU32(buf: bytes, pos: nat): (r: Result<Parsed<u32>>)
    ensures r.Ok? ==> r.value.end == pos + 4 <= |buf|
  {
    var t :- Take(buf, pos, 4);
    Ok(Parsed(FromU32(t.item), t.end))
  }

  function U16s(ns: seq<u16>): (r: bytes)
    ensures |r| == 2 * |ns|
  {
    if ns == [] then [] else U16(ns[0]) + U16s(ns[1..])
  }

  lemma TwoU16s(a: u16, b: u16)
    ensures U16s([a, b]) == U16(a) + U16(b)
  {
    assert [a, b][1..] == [b] && [b][1..] == [];
  }

  /** A run of 16-bit integers, one after the other. */
  function TakeU16s(buf: bytes, pos: nat, count: nat): (r: Result<Parsed<seq<u16>>>)
    ensures r.Ok? ==> |r.value.item| == count && r.value.end == pos + 2 * count && (count > 0 ==> r.value.end <= |buf|)
    decreases count
  {
    if count == 0 then Ok(Parsed([], pos))
    else
      var n :- TakeU16(buf, pos);
      var rest :- TakeU16s(buf, n.end, count - 1);
      Ok(Parsed([n.item] + rest.item, rest.end))
  }

  /** A result that more input could not change. */
  predicate Definite<T>(r: Result<T>) {
    r.Ok? || (r.error != EOF && r.error != UnexpectedEOF)
  }

  // ---------- Octets as numbers ----------

  /** Two octets as a number, the more significant first. */
  function Word(buf: bytes, pos: nat): u16
    requires pos + 2 <= |buf|
  {
    var hi: int := buf[pos];
    hi * 256 + buf[pos + 1]
  }

  lemma WordTaken(buf: bytes, pos: nat)
    requires pos + 2 <= |buf|
    ensures TakeU16(buf, pos) == Ok(Parsed(Word(buf, pos), pos + 2))
  {
    assert buf[pos..pos + 2][0] == buf[pos] && buf[pos..pos + 2][1] == buf[pos + 1];
  }

  lemma LongTaken(buf: bytes, pos: nat)
    requires pos + 4 <= |buf|
    ensures TakeU32(buf, pos) == Ok(Parsed(Word(buf, pos) * 65536 + Word(buf, pos + 2), pos + 4))
  {
    var b := buf[pos..pos + 4];
    assert b[..2][0] == buf[pos] && b[..2][1] == buf[pos + 1] && b[2..][0] == buf[pos + 2] && b[2..][1] == buf[pos + 3];
  }
}

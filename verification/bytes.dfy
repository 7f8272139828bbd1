/** Result shapes shared by the store and the line protocol. */
module Results {

  /** Rust's `Option`. */
  datatype Option<+T> = None | Some(value: T)

  /** How a call of the server's code ends: with a value, with a returned
      error, or with a panic (an out-of-range slice or an arithmetic
      underflow), which ends the thread that made the call. */
  datatype Outcome<+T, +E> = Ok(value: T) | Err(error: E) | Panic
}

/** Byte strings, and the little-endian `u32` framing the log uses. */
module Bytes {

  import opened Results

  /** A `u8`. */
  type Byte = b: int | 0 <= b < 256

  /** A `Bytes`, `BytesMut` or `&[u8]`: the library types become plain sequences. */
  type Bytes = seq<Byte>

  /** One more than the largest `u32`. */
  const U32_LIMIT: int := 0x1_0000_0000

  const SP: Byte := 32
  const CR: Byte := 13
  const LF: Byte := 10

  /** Rust's `n as u32` for a `usize` length: truncation modulo 2^32. */
  function AsU32(n: nat): (r: nat)
    ensures r < U32_LIMIT
    ensures n < U32_LIMIT ==> r == n
  {
    n % U32_LIMIT
  }

  /** 256 to the power `k`: the number of values `k` bytes can hold. */
  function Pow256(k: nat): (r: nat)
    ensures r >= 1
  {
    if k == 0 then 1 else 256 * Pow256(k - 1)
  }

  /** The `k` little-endian bytes of `n`, least significant first; bits of `n`
      beyond the `k` bytes are dropped. */
  function LeBytes(n: nat, k: nat): (r: Bytes)
    ensures |r| == k
  {
    if k == 0 then [] else [n % 256] + LeBytes(n / 256, k - 1)
  }

  /** The number whose little-endian bytes are `b`. */
  function LeValue(b: Bytes): (n: nat)
    ensures n < Pow256(|b|)
  {
    if |b| == 0 then 0 else b[0] as int + 256 * LeValue(b[1..])
  }

  /** Reading back `k` bytes written from a number that fits in them gives
      the number. */
  lemma {:induction false} LeRoundTrip(n: nat, k: nat)
    requires n < Pow256(k)
    ensures LeValue(LeBytes(n, k)) == n
  {
    if k > 0 {
      var b := LeBytes(n, k);
      assert b[1..] == LeBytes(n / 256, k - 1);
      LeRoundTrip(n / 256, k - 1);
    }
  }

  /** Writing back the value of some bytes gives the same bytes. */
  lemma {:induction false} LeCanonical(b: Bytes)
    ensures LeBytes(LeValue(b), |b|) == b
  {
    if |b| > 0 {
      var n := LeValue(b);
      assert n % 256 == b[0] && n / 256 == LeValue(b[1..]);
      LeCanonical(b[1..]);
    }
  }

  /** `u32::to_le_bytes`: least significant byte first. */
  function ToLe32(n: nat): (r: Bytes)
    requires n < U32_LIMIT
    ensures |r| == 4
  {
    LeBytes(n, 4)
  }

  /** `u32::from_le_bytes`. */
  function FromLe32(b: Bytes): (n: nat)
    requires |b| == 4
    ensures n < U32_LIMIT
  {
    assert Pow256(4) == U32_LIMIT;
    LeValue(b)
  }

  /** Decoding the four bytes `to_le_bytes` wrote gives the number back. */
  lemma Le32RoundTrip(n: nat)
    requires n < U32_LIMIT
    ensures FromLe32(ToLe32(n)) == n
  {
    assert Pow256(4) == U32_LIMIT;
    LeRoundTrip(n, 4);
  }

  /** Every four bytes are the encoding of exactly one `u32`: the other direction
      of the round trip, so the encoding is a bijection. */
  lemma Le32Canonical(b: Bytes)
    requires |b| == 4
    ensures ToLe32(FromLe32(b)) == b
  {
    LeCanonical(b);
  }

  /** A CRLF pair starts at index `i` of `s`. */
  predicate CrlfAt(s: Bytes, i: int) {
    0 <= i && i + 1 < |s| && s[i] == CR && s[i + 1] == LF
  }

  /** The first index `i >= from` at which a CRLF pair starts, as
      `s[from..].windows(2).position(|w| w == b"\r\n")` plus `from`. */
  function FindCrlf(s: Bytes, from: nat): (r: Option<nat>)
    requires from <= |s|
    ensures r.Some? ==> from <= r.value && CrlfAt(s, r.value)
    ensures r.Some? ==> forall j :: from <= j < r.value ==> !CrlfAt(s, j)
    ensures r.None? ==> forall j :: from <= j ==> !CrlfAt(s, j)
    decreases |s| - from
  {
    if from + 1 >= |s| then None
    else if s[from] == CR && s[from + 1] == LF then Some(from)
    else FindCrlf(s, from + 1)
  }

  /** The index of the first occurrence of `x` in `s`, as `position`. */
  function Find(s: Bytes, x: Byte): (r: Option<nat>)
    ensures r.None? ==> x !in s
    ensures r.Some? ==> r.value < |s| && s[r.value] == x && x !in s[..r.value]
  {
    if |s| == 0 then None
    else if s[0] == x then Some(0)
    else
      match Find(s[1..], x)
      case None => None
      case Some(i) =>
        assert s[..i + 1] == [s[0]] + s[1..][..i];
        Some(i + 1)
  }

  /** `Find` reports the first occurrence, wherever it is. */
  lemma FindFirst(s: Bytes, x: Byte, i: nat)
    requires i < |s| && s[i] == x && x !in s[..i]
    ensures Find(s, x) == Some(i)
  {
  }
}

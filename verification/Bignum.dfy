/** Arbitrary-precision integers (tags 2 and 3, section 3.4.3 of RFC 8949), within the signed 128-bit range. */
module Bignum {
  import opened Base
  import opened Values

  const BIGNUM_POS: U64 := 2
  const BIGNUM_NEG: U64 := 3
  const U128_WIDTH: nat := 16

  predicate IsCborInt(n: int) {
    -TWO_64 <= n < TWO_64
  }

  /** The narrowest form of `n`: a native integer, otherwise a bignum. */
  function ToValue(n: I128): Cbor {
    if IsCborInt(n) then Integer(n)
    else if n >= 0 then Tag(BIGNUM_POS, Blob(TrimBE(n)))
    else Tag(BIGNUM_NEG, Blob(TrimBE(-1 - n)))
  }

  /** The integer a native integer or bignum denotes, when it fits 128 bits. */
  function FromValue(v: Cbor): Option<I128> {
    match v
    case Integer(n) => Some(n)
    case Tag(tag, Blob(b)) =>
      (match BeToU128(b)
       case Some(m) =>
         if m >= TWO_127 then None
         else if tag == BIGNUM_POS then Some(m)
         else if tag == BIGNUM_NEG then Some(-1 - m)
         else None
       case None => None)
    case _ => None
  }

  /** Index of the first byte that is not zero, or the length. */
  function FirstNonZero(b: Bytes): (i: nat)
    ensures i <= |b|
    ensures i < |b| ==> b[i] != 0
    ensures forall j | 0 <= j < i :: b[j] == 0
  {
    if |b| == 0 || b[0] != 0 then 0 else 1 + FirstNonZero(b[1..])
  }

  /** Big-endian bytes without leading zeros; zero is one zero byte. */
  function TrimBE(n: nat): (r: Bytes)
    ensures 1 <= |r| <= U128_WIDTH
    ensures r[0] == 0 ==> |r| == 1
  {
    var bytes := BE(n, U128_WIDTH);
    var first := FirstNonZero(bytes);
    bytes[if first < U128_WIDTH then first else U128_WIDTH - 1..]
  }

  /** A big-endian magnitude of at most 16 significant bytes. */
  function BeToU128(b: Bytes): Option<nat> {
    var significant := b[FirstNonZero(b)..];
    if |significant| > U128_WIDTH then None else Some(FromBE(significant))
  }

  /** The source fills a zeroed 16-byte buffer from its end and reads that as one big-endian word. */
  method ReadMagnitude(b: Bytes) returns (r: Option<nat>)
    ensures r == BeToU128(b)
  {
    hide FromBE, Zeros;
    var start := 0;
    while start < |b| && b[start] == 0
      invariant start <= |b|
      invariant FirstNonZero(b) == start + FirstNonZero(b[start..])
    {
      assert b[start..][1..] == b[start + 1..];
      start := start + 1;
    }
    var significant := b[start..];
    if |significant| > U128_WIDTH {
      return None;
    }
    var buf := RightAligned(significant);
    FromBEZeros(U128_WIDTH - |significant|, significant);
    return Some(FromBE(buf[..]));
  }

  /** The bytes at the end of a zeroed buffer. */
  method RightAligned(significant: Bytes) returns (buf: array<byte>)
    requires |significant| <= U128_WIDTH
    ensures fresh(buf) && buf[..] == Zeros(U128_WIDTH - |significant|) + significant
  {
    hide Zeros;
    var zeros := U128_WIDTH - |significant|;
    buf := new byte[U128_WIDTH](_ => 0);
    for i := 0 to |significant|
      invariant forall j | 0 <= j < zeros :: buf[j] == 0
      invariant forall j | 0 <= j < i :: buf[zeros + j] == significant[j]
    {
      buf[zeros + i] := significant[i];
    }
    forall k | 0 <= k < U128_WIDTH
      ensures buf[k] == (Zeros(zeros) + significant)[k]
    {
      assert k >= zeros ==> buf[zeros + (k - zeros)] == significant[k - zeros];
    }
  }

  function Zeros(n: nat): (r: Bytes)
    ensures |r| == n && forall i | 0 <= i < n :: r[i] == 0
  {
    seq(n, _ => 0)
  }

  lemma {:induction false} FromBEZeros(n: nat, b: Bytes)
    ensures FromBE(Zeros(n) + b) == FromBE(b)
  {
    hide FromBE;
    if n > 0 {
      FromBEZeros(n - 1, b);
      FromBELeadingZero(Zeros(n - 1) + b);
      assert Zeros(n) == [0] + Zeros(n - 1);
      assert Zeros(n) + b == [0] + (Zeros(n - 1) + b);
    } else {
      assert Zeros(n) + b == b;
    }
  }

  /** Skipping leading zeros keeps the number. */
  lemma FromBESignificant(b: Bytes, k: nat)
    requires k <= FirstNonZero(b)
    ensures FromBE(b[k..]) == FromBE(b)
  {
    FromBEZeros(k, b[k..]);
    assert b == Zeros(k) + b[k..];
  }

  /** A byte string is read exactly when its magnitude is below 2^128, whatever zeros lead it. */
  lemma MagnitudeExact(b: Bytes)
    ensures BeToU128(b) == if FromBE(b) < TWO_64 * TWO_64 then Some(FromBE(b)) else None
  {
    var first := FirstNonZero(b);
    var significant := b[first..];
    FromBESignificant(b, first);
    Pow256Values();
    if |significant| > U128_WIDTH {
      FromBELowerBound(significant);
      Pow256Monotone(U128_WIDTH, |significant| - 1);
    } else {
      Pow256Monotone(|significant|, U128_WIDTH);
    }
  }

  lemma TrimExact(n: nat)
    requires n < TWO_64 * TWO_64
    ensures FromBE(TrimBE(n)) == n
  {
    var bytes := BE(n, U128_WIDTH);
    Pow256Values();
    FromBEofBE(n, U128_WIDTH);
    var first := FirstNonZero(bytes);
    FromBESignificant(bytes, if first < U128_WIDTH then first else U128_WIDTH - 1);
  }

  /** Every 128-bit integer, the minimum included, survives the round trip. */
  lemma BignumRoundTrip(n: I128)
    ensures FromValue(ToValue(n)) == Some(n)
  {
    hide TrimBE, BeToU128;
    if !IsCborInt(n) {
      var m := if n >= 0 then n else -1 - n;
      TrimExact(m);
      MagnitudeExact(TrimBE(m));
    }
  }

  /** An emitted bignum is minimal: no leading zero byte, and no native integer would do. */
  lemma BignumMinimal(n: I128)
    ensures ToValue(n).Tag? ==> !IsCborInt(n) && ToValue(n).inner.Blob? && ToValue(n).inner.bytes[0] != 0
    ensures ToValue(n).Tag? <==> !IsCborInt(n)
  {
    if !IsCborInt(n) {
      var m := if n >= 0 then n else -1 - n;
      TrimExact(m);
      assert FromBE([0]) == FromBE([]) * 256 + 0;
    }
  }

  /** Tag 2 over a byte string denotes its magnitude `n`, tag 3 denotes -1 - n; exactly the magnitudes below 2^127 are
      accepted. A native integer denotes itself, and nothing else denotes an integer. */
  lemma BignumDecode(v: Cbor)
    ensures FromValue(v) == match v
                            case Integer(n) => Some(n)
                            case Tag(tag, Blob(b)) =>
                              if FromBE(b) >= 170_141_183_460_469_231_731_687_303_715_884_105_728 then None
                              else if tag == 2 then Some(FromBE(b))
                              else if tag == 3 then Some(-1 - FromBE(b))
                              else None
                            case _ => None
  {
    hide BeToU128, FromBE;
    if v.Tag? && v.inner.Blob? {
      MagnitudeExact(v.inner.bytes);
    }
  }

  /** The written form: a native integer from -2^64 to 2^64 - 1, otherwise tag 2 or 3 by the sign, over the
      magnitude. */
  lemma BignumForms(n: I128)
    ensures match ToValue(n)
            case Integer(m) => m == n
            case Tag(tag, Blob(b)) => tag == (if n >= 0 then 2 else 3) && FromBE(b) == if n >= 0 then n else -1 - n
            case _ => false
    ensures ToValue(n).Integer? <==> -18_446_744_073_709_551_616 <= n <= 18_446_744_073_709_551_615
  {
    hide TrimBE, FromBE;
    if !IsCborInt(n) {
      TrimExact(if n >= 0 then n else -1 - n);
    }
  }
}

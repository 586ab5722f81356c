/** Results, machine integers, bytes and big-endian numbers shared by every module. */
module Base {

  datatype Option<+T> = None | Some(value: T)

  /** The result of a conversion. The program's errors differ only in their message text, so one refusal is enough. */
  datatype Outcome<+T> = Ok(value: T) | Refused {
    predicate IsFailure() {
      Refused?
    }

    function PropagateFailure<U>(): Outcome<U>
      requires Refused?
    {
      Refused
    }

    function Extract(): T
      requires Ok?
    {
      value
    }
  }

  const TWO_32: int := 0x1_0000_0000
  const TWO_63: int := 0x8000_0000_0000_0000
  const TWO_64: int := 0x1_0000_0000_0000_0000
  const TWO_127: int := 0x8000_0000_0000_0000_0000_0000_0000_0000

  type byte = n: int | 0 <= n < 256
  type Bytes = seq<byte>
  type U64 = n: int | 0 <= n < TWO_64
  type I64 = n: int | -TWO_63 <= n < TWO_63
  type I128 = n: int | -TWO_127 <= n < TWO_127

  predicate IsI32(n: int) {
    -0x8000_0000 <= n < 0x8000_0000
  }

  predicate IsI64(n: int) {
    -TWO_63 <= n < TWO_63
  }

  predicate IsI128(n: int) {
    -TWO_127 <= n < TWO_127
  }

  /** Division that rounds toward zero, as the source's `/` does. */
  function TruncDiv(a: int, b: int): int
    requires b > 0
  {
    if a >= 0 then a / b else -(-a / b)
  }

  /** The narrowing cast `as i64`: reduction modulo 2^64 into the signed range. */
  function WrapI64(n: int): (r: I64)
    ensures (r - n) % TWO_64 == 0
    ensures IsI64(n) ==> r == n
  {
    var m := n % TWO_64;
    if m < TWO_63 then m else m - TWO_64
  }

  lemma SameFirst<T>(first: T, rest: seq<T>, all: seq<T>)
    requires |all| > 0
    ensures [first] + rest == all <==> first == all[0] && rest == all[1..]
  {
    if [first] + rest == all {
      assert rest == ([first] + rest)[1..];
    }
  }

  lemma NonNegative(x: nat, y: nat)
    ensures x * y >= 0
  {
  }

  lemma DivUnique(m: int, f: int, r: int)
    requires f > 0 && m == r * f
    ensures m / f == r && m % f == 0
  {
    var d := r - m / f;
    assert f * d == m % f;
    assert d > 0 ==> f * d >= f;
    assert d < 0 ==> f * d <= -f;
  }

  // ---- Big-endian numbers ----

  function Pow256(k: nat): (r: nat)
    ensures r > 0
  {
    if k == 0 then 1 else 256 * Pow256(k - 1)
  }

  /** The low `k` bytes of `n`, most significant first. */
  function BE(n: nat, k: nat): (r: Bytes)
    ensures |r| == k
  {
    if k == 0 then [] else BE(n / 256, k - 1) + [n % 256]
  }

  function FromBE(b: Bytes): (r: nat)
    ensures r < Pow256(|b|)
  {
    if |b| == 0 then 0 else FromBE(b[..|b| - 1]) * 256 + b[|b| - 1]
  }

  lemma {:induction false} FromBEofBE(n: nat, k: nat)
    requires n < Pow256(k)
    ensures FromBE(BE(n, k)) == n
  {
    if k > 0 {
      FromBEofBE(n / 256, k - 1);
      assert BE(n, k)[..k - 1] == BE(n / 256, k - 1);
    }
  }

  /** Leading zero bytes do not change the number. */
  lemma {:induction false} FromBELeadingZero(b: Bytes)
    ensures FromBE([0] + b) == FromBE(b)
  {
    if |b| > 0 {
      FromBELeadingZero(b[..|b| - 1]);
      assert ([0] + b)[..|b|] == [0] + b[..|b| - 1];
    } else {
      assert [0] + b == [0];
    }
  }

  /** A number whose first byte is not zero needs every one of its bytes. */
  lemma {:induction false} FromBELowerBound(b: Bytes)
    requires |b| > 0 && b[0] != 0
    ensures FromBE(b) >= Pow256(|b| - 1)
  {
    if |b| > 1 {
      FromBELowerBound(b[..|b| - 1]);
    } else {
      assert b == [b[0]];
      assert FromBE(b) == FromBE([]) * 256 + b[0];
    }
  }

  lemma Shift256(x: int, p: int)
    ensures x * (256 * p) == x * p * 256
  {
  }

  /** The first byte is the most significant one. */
  lemma {:induction false} FromBEFirst(x: byte, b: Bytes)
    ensures FromBE([x] + b) == x * Pow256(|b|) + FromBE(b)
  {
    if |b| == 0 {
      assert [x] + b == [x] && [x][..0] == [];
    } else {
      var front := b[..|b| - 1];
      FromBEFirst(x, front);
      assert ([x] + b)[..|b|] == [x] + front;
      Shift256(x, Pow256(|front|));
    }
  }

  lemma Pow256Values()
    ensures Pow256(1) == 256
    ensures Pow256(2) == 0x1_0000
    ensures Pow256(4) == TWO_32
    ensures Pow256(8) == TWO_64
    ensures Pow256(16) == TWO_64 * TWO_64
  {
    Pow256Sum(8, 8);
    assert Pow256(8) == TWO_64;
  }

  lemma {:induction false} Pow256Sum(a: nat, b: nat)
    ensures Pow256(a + b) == Pow256(a) * Pow256(b)
  {
    if a > 0 {
      Pow256Sum(a - 1, b);
      assert Pow256(a + b) == 256 * (Pow256(a - 1) * Pow256(b));
    }
  }

  lemma {:induction false} Pow256Monotone(a: nat, b: nat)
    requires a <= b
    ensures Pow256(a) <= Pow256(b)
    decreases b
  {
    if a < b {
      Pow256Monotone(a, b - 1);
    }
  }

  // ---- Byte order ----

  /** Lexicographic order on byte strings. */
  predicate LexLeq(a: Bytes, b: Bytes) {
    |a| == 0 || (|b| > 0 && (a[0] < b[0] || (a[0] == b[0] && LexLeq(a[1..], b[1..]))))
  }

  /** At `p` the strings differ for the first time, and `a` has the smaller byte. */
  predicate SmallerAt(a: Bytes, b: Bytes, p: nat) {
    p < |a| && p < |b| && a[..p] == b[..p] && a[p] < b[p]
  }

  /** `a` is a prefix of `b`, or has the smaller byte where they first differ. */
  ghost predicate Bytewise(a: Bytes, b: Bytes) {
    a <= b || exists p: nat :: SmallerAt(a, b, p)
  }

  lemma {:induction false} LexIsBytewise(a: Bytes, b: Bytes)
    ensures LexLeq(a, b) <==> Bytewise(a, b)
  {
    if |a| > 0 && |b| > 0 && a[0] == b[0] {
      var x, y := a[1..], b[1..];
      LexIsBytewise(x, y);
      assert a == [a[0]] + x && b == [b[0]] + y;
      if p: nat :| SmallerAt(x, y, p) {
        assert a[..p + 1] == [a[0]] + x[..p] && b[..p + 1] == [b[0]] + y[..p];
        assert SmallerAt(a, b, p + 1);
      }
      if p: nat :| SmallerAt(a, b, p) {
        assert x[..p - 1] == a[..p][1..] && y[..p - 1] == b[..p][1..];
        assert SmallerAt(x, y, p - 1);
      }
      assert a <= b <==> x <= y;
    } else if |a| > 0 && |b| > 0 && a[0] < b[0] {
      assert SmallerAt(a, b, 0);
    }
  }

  lemma {:induction false} LexTotal(a: Bytes, b: Bytes)
    ensures LexLeq(a, b) || LexLeq(b, a)
  {
    if |a| > 0 && |b| > 0 && a[0] == b[0] {
      LexTotal(a[1..], b[1..]);
    }
  }

  lemma {:induction false} LexAntisymmetric(a: Bytes, b: Bytes)
    requires LexLeq(a, b) && LexLeq(b, a)
    ensures a == b
  {
    if |a| > 0 {
      LexAntisymmetric(a[1..], b[1..]);
      assert a == [a[0]] + a[1..] && b == [b[0]] + b[1..];
    }
  }

  lemma {:induction false} LexTransitive(a: Bytes, b: Bytes, c: Bytes)
    requires LexLeq(a, b) && LexLeq(b, c)
    ensures LexLeq(a, c)
  {
    if |a| > 0 && a[0] == b[0] == c[0] {
      LexTransitive(a[1..], b[1..], c[1..]);
    }
  }

  /** A common prefix does not affect the order. */
  lemma {:induction false} LexPrefix(p: Bytes, a: Bytes, b: Bytes)
    ensures LexLeq(p + a, p + b) == LexLeq(a, b)
  {
    if |p| > 0 {
      assert (p + a)[1..] == p[1..] + a && (p + b)[1..] == p[1..] + b;
      LexPrefix(p[1..], a, b);
    } else {
      assert p + a == a && p + b == b;
    }
  }

  /** A difference inside equally long prefixes decides the order. */
  lemma {:induction false} LexDecided(p: Bytes, q: Bytes, a: Bytes, b: Bytes)
    requires |p| == |q| && p != q
    ensures LexLeq(p + a, q + b) == LexLeq(p, q)
  {
    assert (p + a)[0] == p[0] && (q + b)[0] == q[0];
    if p[0] == q[0] {
      assert p == [p[0]] + p[1..] && q == [q[0]] + q[1..];
      assert (p + a)[1..] == p[1..] + a && (q + b)[1..] == q[1..] + b;
      LexDecided(p[1..], q[1..], a, b);
    }
  }

  /** Big-endian numbers of one width are ordered as numbers. */
  lemma {:induction false} LexOfBE(n: nat, m: nat, k: nat)
    requires n < m < Pow256(k)
    ensures BE(n, k) != BE(m, k)
    ensures LexLeq(BE(n, k), BE(m, k))
  {
    var p, q := BE(n / 256, k - 1), BE(m / 256, k - 1);
    if n / 256 < m / 256 {
      LexOfBE(n / 256, m / 256, k - 1);
      LexDecided(p, q, [n % 256], [m % 256]);
      assert BE(n, k)[..k - 1] == p && BE(m, k)[..k - 1] == q;
    } else {
      LexPrefix(p, [n % 256], [m % 256]);
      assert BE(n, k)[k - 1] != BE(m, k)[k - 1];
    }
  }
}

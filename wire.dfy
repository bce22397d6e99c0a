/** Bytes and the few Go slice primitives the client is built from:
    a zeroed `make([]byte, n)`, `bytes.Repeat`, and the pair
    "allocate n zero bytes, then `copy` a source into them". */
module Wire {

  /** An unsigned 8-bit value (Go's `byte`). */
  type byte = b: int | 0 <= b < 256

  datatype Option<+T> = None | Some(value: T)

  function Min(a: int, b: int): (m: int)
  {
    if a <= b then a else b
  }

  function Max(a: int, b: int): (m: int)
  {
    if a >= b then a else b
  }

  /** Go's `make([]byte, n)`: n zero bytes. */
  function Zeros(n: nat): (r: seq<byte>)
    ensures |r| == n
    ensures forall i | 0 <= i < n :: r[i] == 0
  {
    seq(n, _ => 0)
  }

  /** `make([]byte, n)` followed by `copy(dst, s)`: the first min(n, |s|)
      bytes of `s`, padded with zeros up to exactly n bytes. */
  function Fit(s: seq<byte>, n: nat): (r: seq<byte>)
    ensures |r| == n
    ensures forall i | 0 <= i < n :: r[i] == (if i < |s| then s[i] else 0)
  {
    if |s| >= n then s[..n] else s + Zeros(n - |s|)
  }

  /** Go's `bytes.Repeat(unit, count)`: `count` copies of `unit`, back to back. */
  function Repeat(unit: seq<byte>, count: nat): (r: seq<byte>)
    ensures |r| == count * |unit|
    ensures |unit| > 0 ==> forall j | 0 <= j < |r| :: r[j] == unit[j % |unit|]
  {
    if count == 0 then []
    else
      var rest := Repeat(unit, count - 1);
      assert |unit| > 0 ==> forall j | |unit| <= j < |unit| + |rest| :: (j - |unit|) % |unit| == j % |unit| by {
        if |unit| > 0 {
          forall j | |unit| <= j < |unit| + |rest| ensures (j - |unit|) % |unit| == j % |unit| {
            ModShift(j - |unit|, |unit|);
          }
        }
      }
      unit + rest
  }

  /** Shifting by one period does not change the remainder. */
  lemma ModShift(k: nat, m: nat)
    requires m > 0
    ensures (k + m) % m == k % m
  {
    var q, r := k / m, k % m;
    assert k == q * m + r;
    assert k + m == (q + 1) * m + r;
    ModUnique(k + m, m, q + 1, r);
  }

  /** The remainder is the unique r in [0, m) with n = q*m + r. */
  lemma ModUnique(n: nat, m: nat, q: nat, r: nat)
    requires m > 0 && r < m && n == q * m + r
    ensures n % m == r
  {
    var q', r' := n / m, n % m;
    assert n == q' * m + r';
    if q' < q {
      assert (q - q') * m == r' - r;
      assert (q - q') * m >= m by { MulAtLeast(q - q', m); }
    } else if q' > q {
      assert (q' - q) * m == r - r';
      assert (q' - q) * m >= m by { MulAtLeast(q' - q, m); }
    }
  }

  lemma MulAtLeast(a: nat, m: nat)
    requires a >= 1
    ensures a * m >= m
  {
  }
}

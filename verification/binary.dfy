/** Octets, powers of two and the little-endian integer layout that Node's
    `Buffer.writeUIntNLE` / `readUIntNLE` family produces and consumes. */
module Binary {

  /** One octet of a Node `Buffer`. */
  type byte = x: int | 0 <= x < 0x100

  type Bytes = seq<byte>

  function Min(a: int, b: int): int {
    if a <= b then a else b
  }

  function Max(a: int, b: int): int {
    if a <= b then b else a
  }

  function Pow2(k: nat): (r: nat)
    ensures r >= 1
  {
    if k == 0 then 1 else 2 * Pow2(k - 1)
  }

  function Pow256(w: nat): (r: nat)
    ensures r >= 1
  {
    if w == 0 then 1 else 0x100 * Pow256(w - 1)
  }

  /** The widths the codec writes, as numbers. */
  lemma Pow256Values()
    ensures Pow256(1) == 0x100
    ensures Pow256(2) == 0x1_0000
    ensures Pow256(4) == 0x1_0000_0000
    ensures Pow256(8) == 0x1_0000_0000_0000_0000
  {
  }

  lemma {:induction false} Pow2Add(a: nat, b: nat)
    ensures Pow2(a + b) == Pow2(a) * Pow2(b)
    decreases a
  {
    if a > 0 {
      Pow2Add(a - 1, b);
    }
  }

  lemma {:induction false} Pow256IsPow2(w: nat)
    ensures Pow256(w) == Pow2(8 * w)
  {
    if w > 0 {
      Pow256IsPow2(w - 1);
      Pow2Add(8, 8 * (w - 1));
      assert Pow2(8) == 0x100;
    }
  }

  lemma {:induction false} Pow2Exceeds(k: nat)
    ensures k < Pow2(k)
  {
    if k > 0 {
      Pow2Exceeds(k - 1);
    }
  }

  /** `x / d` and `x % d` are the unique quotient and remainder. */
  lemma DivModUnique(x: int, d: int, q: int, r: int)
    requires d > 0 && 0 <= r < d && x == q * d + r
    ensures x / d == q && x % d == r
  {
    var q', r' := x / d, x % d;
    assert x == q' * d + r';
    if q' < q {
      assert (q - q') * d >= d by { MulAtLeast(q - q', d); }
      assert false;
    } else if q' > q {
      assert (q' - q) * d >= d by { MulAtLeast(q' - q, d); }
      assert false;
    }
  }

  lemma MulAtLeast(a: int, d: int)
    requires a >= 1 && d > 0
    ensures a * d >= d
  {
  }

  lemma MulMonotone(a: int, b: int, d: int)
    requires a <= b && d >= 0
    ensures a * d <= b * d
  {
  }

  /** The `width`-byte little-endian form of `n`, as `Buffer.writeUIntNLE` writes it. */
  function LittleEndian(n: nat, width: nat): (r: Bytes)
    requires n < Pow256(width)
    ensures |r| == width
    ensures FromLittleEndian(r) == n
    decreases width
  {
    if width == 0 then []
    else
      assert n / 0x100 < Pow256(width - 1);
      [n % 0x100] + LittleEndian(n / 0x100, width - 1)
  }

  /** The unsigned integer whose little-endian bytes are `s`, as `Buffer.readUIntNLE` reads it. */
  function FromLittleEndian(s: Bytes): (r: nat)
    ensures r < Pow256(|s|)
  {
    if |s| == 0 then 0
    else
      var high := FromLittleEndian(s[1..]);
      assert high * 0x100 <= (Pow256(|s| - 1) - 1) * 0x100 by {
        MulMonotone(high, Pow256(|s| - 1) - 1, 0x100);
      }
      s[0] + 0x100 * high
  }
}

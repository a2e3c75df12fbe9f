/** The multiplicative hash of ports and protocols (hash_func_short, hash_func_byte) and where it sends keys. */
module HashSlots {
  import opened Buckets
  import opened Chains
  import opened HashTable

  /** Unsigned 32-bit multiplication by the table's odd multiplier. */
  function Multiplied(key: nat, coeff: nat): nat {
    (key * coeff) % 0x1_0000_0000
  }

  lemma OddProduct(d: int, c: int)
    requires d % 2 == 1 && c % 2 == 1
    ensures (d * c) % 2 == 1
  {
    var e, f := d / 2, c / 2;
    assert d * c == 2 * (e * c + f) + 1 by {
      assert d == 2 * e + 1 && c == 2 * f + 1;
      assert d * c == 2 * (e * c) + c;
    }
  }

  lemma Halve(d: int, c: int, q: int, p: int)
    requires c % 2 == 1 && d * c == q * (2 * p)
    ensures d % 2 == 0 && (d / 2) * c == q * p
  {
    Doubled(q, p);
    if d % 2 == 1 {
      OddProduct(d, c);
      assert false;
    } else {
      Doubled(c, d / 2);
    }
  }

  lemma Doubled(q: int, p: int)
    ensures q * (2 * p) == 2 * (q * p) == (2 * p) * q
  {
  }

  /** An odd factor can be cancelled from a multiple of a power of two. */
  lemma {:induction false} OddCancels(d: int, c: int, n: nat, q: int) returns (r: int)
    requires c % 2 == 1 && d * c == q * Pow2(n)
    ensures d == r * Pow2(n)
    decreases n
  {
    if n == 0 {
      r := d;
    } else {
      var p := Pow2(n - 1);
      Halve(d, c, q, p);
      r := OddCancels(d / 2, c, n - 1, q);
      Doubled(r, p);
    }
  }

  lemma {:induction false} PowAdd(a: nat, b: nat)
    ensures Pow2(a + b) == Pow2(a) * Pow2(b)
  {
    if a > 0 {
      PowAdd(a - 1, b);
      assert Pow2(a + b) == 2 * (Pow2(a - 1) * Pow2(b));
    }
  }

  /** The quotients behind a slot. */
  lemma SlotQuotient(x: nat, bits: nat) returns (q: int)
    requires bits <= 32
    ensures x == q * Pow2(bits) + (x % 0x1_0000_0000) % Pow2(bits)
  {
    hide Pow2;
    var h := x % 0x1_0000_0000;
    var a, b, p, r := x / 0x1_0000_0000, h / Pow2(bits), Pow2(bits), Pow2(32 - bits);
    PowAdd(32 - bits, bits);
    Pow32();
    Quotient(h, p);
    Regroup(a, r, b, p);
    q := a * r + b;
  }

  lemma Quotient(x: nat, p: nat)
    requires p > 0
    ensures x == (x / p) * p + x % p
  {
  }

  lemma Regroup(a: int, r: int, b: int, p: int)
    ensures (a * r + b) * p == a * (r * p) + b * p
  {
  }

  lemma Distribute(a: int, b: int, p: int)
    ensures (a - b) * p == a * p - b * p
  {
  }

  lemma Pow32()
    ensures Pow2(32) == 0x1_0000_0000
  {
    assert Pow2(8) == 256;
    PowAdd(8, 8);
    PowAdd(16, 16);
  }

  lemma {:induction false} PowMono(a: nat, b: nat)
    requires a <= b
    ensures Pow2(a) <= Pow2(b)
  {
    if a < b {
      PowMono(a, b - 1);
    }
  }

  lemma SmallMultiple(d: int, r: int, p: int)
    requires d == r * p && -p < d < p
    ensures d == 0
  {
    if r >= 1 {
      Grows(r, p);
      assert false;
    } else if r <= -1 {
      Grows(-r, p);
      Distribute(0, r, p);
      assert false;
    }
  }

  lemma Grows(r: int, p: int)
    requires r >= 1 && p >= 0
    ensures r * p >= p
  {
  }

  lemma SlotDifference(x: nat, y: nat, bits: nat) returns (q: int)
    requires bits <= 32 && (x % 0x1_0000_0000) % Pow2(bits) == (y % 0x1_0000_0000) % Pow2(bits)
    ensures x - y == q * Pow2(bits)
  {
    hide Pow2;
    var a := SlotQuotient(x, bits);
    var b := SlotQuotient(y, bits);
    Distribute(a, b, Pow2(bits));
    q := a - b;
  }

  /** Keys of up to `width` bits never share a slot in a table that has at least that many bits. */
  lemma NoCollision(width: nat, bits: nat, coeff: nat, j: nat, k: nat)
    requires coeff % 2 == 1 && width <= bits <= 32 && j < Pow2(width) && k < Pow2(width)
    requires Multiplied(j, coeff) % Pow2(bits) == Multiplied(k, coeff) % Pow2(bits)
    ensures j == k
  {
    hide Pow2, Multiplied;
    var x, y := Products(j, k, coeff);
    var r := SameSlot(coeff, bits, j - k, x, y);
    PowMono(width, bits);
    SmallMultiple(j - k, r, Pow2(bits));
  }

  lemma Products(j: nat, k: nat, coeff: nat) returns (x: nat, y: nat)
    ensures x - y == (j - k) * coeff
    ensures Multiplied(j, coeff) == x % 0x1_0000_0000 && Multiplied(k, coeff) == y % 0x1_0000_0000
  {
    x, y := j * coeff, k * coeff;
    Distribute(j, k, coeff);
  }

  /** Numbers in the same slot that differ by a multiple of the multiplier. */
  lemma SameSlot(coeff: nat, bits: nat, d: int, x: nat, y: nat) returns (r: int)
    requires coeff % 2 == 1 && bits <= 32 && x - y == d * coeff
    requires (x % 0x1_0000_0000) % Pow2(bits) == (y % 0x1_0000_0000) % Pow2(bits)
    ensures d == r * Pow2(bits)
  {
    hide Pow2;
    var q := SlotDifference(x, y, bits);
    r := OddCancels(d, coeff, bits, q);
  }

  /** So in such a table no chain is longer than one: every lookup takes one step. */
  lemma SingleChains(width: nat, bits: nat, size: nat, coeff: nat, count: nat,
                     chains: seq<seq<Bucket<nat>>>, buckets: set<Bucket<nat>>, m: map<nat, Bucket<nat>>, i: nat)
    requires Shaped(bits, size, coeff, count, SlotOf(Multiplied, coeff, Pow2(bits)), chains, buckets, m)
    requires width <= bits <= 32 && (forall k :: k in m ==> k < Pow2(width)) && i < |chains|
    ensures |chains[i]| <= 1
  {
    hide Multiplied, Pow2, ChainLength;
    var c := chains[i];
    if |c| > 1 {
      assert c[0] in Members(chains) && c[1] in Members(chains);
      assert c[0] in c && c[1] in c && c[0] != c[1];
      NoCollision(width, bits, coeff, c[0].key, c[1].key);
      assert false;
    }
  }
}

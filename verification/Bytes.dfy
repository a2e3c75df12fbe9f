/** Big-endian numbers in files and addresses (db.c). */
module Bytes {

  const U64: nat := 0x1_0000_0000_0000_0000

  type u64 = x: nat | x < U64

  /** Addition that wraps round. */
  function Add64(x: nat, y: nat): u64 {
    (x + y) % U64
  }

  /** The bytes read as one big-endian number. */
  function Value(s: seq<bv8>): nat {
    if |s| == 0 then 0 else 256 * Value(s[..|s| - 1]) + s[|s| - 1] as nat
  }

  function Pow256(n: nat): (p: nat)
    ensures p >= 1
  {
    if n == 0 then 1 else 256 * Pow256(n - 1)
  }

  lemma {:induction false} ValueBound(s: seq<bv8>)
    ensures Value(s) < Pow256(|s|)
  {
    if |s| > 0 {
      ValueBound(s[..|s| - 1]);
    }
  }

  /** The byte that stands for a number. (Counting up spares the proofs a conversion from integers.) */
  function ByteOf(n: nat): (b: bv8)
    requires n < 256
    ensures b as nat == n
  {
    if n == 0 then 0 else ByteOf(n - 1) + 1
  }

  /** The `n` bytes of a number, in network order. */
  function Be(n: nat, x: nat): (s: seq<bv8>)
    requires x < Pow256(n)
    ensures |s| == n && Value(s) == x
  {
    if n == 0 then []
    else
      var s := Be(n - 1, x / 256);
      var b := ByteOf(x % 256);
      assert (s + [b])[..n - 1] == s;
      s + [b]
  }

  /** No two byte sequences of one length make the same number. */
  lemma {:induction false} BeOfValue(s: seq<bv8>)
    ensures Value(s) < Pow256(|s|) && Be(|s|, Value(s)) == s
  {
    hide Be;
    ValueBound(s);
    if |s| == 0 {
      assert s == [];
    } else {
      var n := |s| - 1;
      BeOfValue(s[..n]);
      BeLast(n, Value(s[..n]), s[n]);
      assert s == s[..n] + [s[n]];
    }
  }

  lemma BeLast(n: nat, q: nat, b: bv8)
    requires q < Pow256(n)
    ensures 256 * q + b as nat < Pow256(n + 1)
    ensures Be(n + 1, 256 * q + b as nat) == Be(n, q) + [b]
  {
    hide ByteOf;
    DivMod(q, b as nat);
    SameByte(ByteOf(b as nat), b);
  }

  lemma DivMod(q: nat, r: nat)
    requires r < 256
    ensures (256 * q + r) / 256 == q && (256 * q + r) % 256 == r
  {
  }

  lemma SameByte(b: bv8, c: bv8)
    requires b as nat == c as nat
    ensures b == c
  {
    assert (b as nat) as bv8 == b && (c as nat) as bv8 == c;
  }

  lemma Powers()
    ensures Pow256(1) == 0x100 && Pow256(2) == 0x1_0000 && Pow256(4) == 0x1_0000_0000 && Pow256(8) == U64
  {
    assert Pow256(2) == 256 * Pow256(1) && Pow256(3) == 256 * Pow256(2) && Pow256(4) == 256 * Pow256(3);
    assert Pow256(5) == 256 * Pow256(4) && Pow256(6) == 256 * Pow256(5) && Pow256(7) == 256 * Pow256(6);
  }

  // ----- The order of bytes in memory -----

  datatype Endian = Big | Little

  function Swap64(x: bv64): bv64 {
    (x >> 56) | ((x >> 40) & 0xff00) | ((x >> 24) & 0xff0000) |
    ((x >> 8) & 0xff000000) | ((x << 8) & (0xff << 32)) |
    ((x << 24) & (0xff << 40)) | ((x << 40) & (0xff << 48)) | (x << 56)
  }

  /** hton64() and ntoh64() on a machine of either kind. */
  function Hton64(e: Endian, x: bv64): bv64 {
    if e == Big then x else Swap64(x)
  }

  /** How a machine lays out a 64-bit word. */
  function Memory(e: Endian, x: bv64): (s: seq<bv8>)
    ensures |s| == 8
  {
    var b0, b1, b2, b3 := x & 0xff, (x >> 8) & 0xff, (x >> 16) & 0xff, (x >> 24) & 0xff;
    var b4, b5, b6, b7 := (x >> 32) & 0xff, (x >> 40) & 0xff, (x >> 48) & 0xff, (x >> 56) & 0xff;
    match e
    case Big => [b7 as bv8, b6 as bv8, b5 as bv8, b4 as bv8, b3 as bv8, b2 as bv8, b1 as bv8, b0 as bv8]
    case Little => [b0 as bv8, b1 as bv8, b2 as bv8, b3 as bv8, b4 as bv8, b5 as bv8, b6 as bv8, b7 as bv8]
  }

  lemma Swap64Twice(x: bv64)
    ensures Swap64(Swap64(x)) == x
  {
  }

  lemma Swap64Bytes(x: bv64)
    ensures Swap64(x) & 0xff == (x >> 56) & 0xff && (Swap64(x) >> 8) & 0xff == (x >> 48) & 0xff
    ensures (Swap64(x) >> 16) & 0xff == (x >> 40) & 0xff && (Swap64(x) >> 24) & 0xff == (x >> 32) & 0xff
    ensures (Swap64(x) >> 32) & 0xff == (x >> 24) & 0xff && (Swap64(x) >> 40) & 0xff == (x >> 16) & 0xff
    ensures (Swap64(x) >> 48) & 0xff == (x >> 8) & 0xff && (Swap64(x) >> 56) & 0xff == x & 0xff
  {
  }

  /** Converting twice changes nothing, and what is written is in network order on every machine. */
  lemma Hton64Portable(e: Endian, x: bv64)
    ensures Hton64(e, Hton64(e, x)) == x
    ensures Memory(e, Hton64(e, x)) == Memory(Big, x)
  {
    hide Swap64;
    Swap64Twice(x);
    Swap64Bytes(x);
  }

  /** The word that holds a number of up to `k` bytes, put together byte by byte. */
  function Word(k: nat, n: nat): bv64
    requires n < Pow256(k)
  {
    if k == 0 then 0 else (Word(k - 1, n / 256) << 8) | (ByteOf(n % 256) as bv64)
  }

  function Zeros(n: nat): (s: seq<bv8>)
    ensures |s| == n
  {
    seq(n, _ => 0)
  }

  lemma ShiftIn(w: bv64, b: bv8)
    ensures var x := (w << 8) | (b as bv64);
            Memory(Big, x) == Memory(Big, w)[1..] + [b]
  {
    var x := (w << 8) | (b as bv64);
    ShiftBytes(w, b);
    var m, t := Memory(Big, w), Memory(Big, x);
    assert t == [m[1], m[2], m[3], m[4], m[5], m[6], m[7], b];
  }

  lemma ShiftBytes(w: bv64, b: bv8)
    ensures var x := (w << 8) | (b as bv64);
            && (x & 0xff) as bv8 == b && (x >> 8) & 0xff == w & 0xff && (x >> 16) & 0xff == (w >> 8) & 0xff
            && (x >> 24) & 0xff == (w >> 16) & 0xff && (x >> 32) & 0xff == (w >> 24) & 0xff
            && (x >> 40) & 0xff == (w >> 32) & 0xff && (x >> 48) & 0xff == (w >> 40) & 0xff
            && (x >> 56) & 0xff == (w >> 48) & 0xff
  {
  }

  lemma WordLast(k: nat, n: nat)
    requires 0 < k && n < Pow256(k)
    ensures n / 256 < Pow256(k - 1) && |Be(k - 1, n / 256)| == k - 1
    ensures Word(k, n) == (Word(k - 1, n / 256) << 8) | (ByteOf(n % 256) as bv64)
    ensures Be(k, n) == Be(k - 1, n / 256) + [ByteOf(n % 256)]
  {
    hide ByteOf;
  }

  lemma WordShift(k: nat, n: nat)
    requires 0 < k && n < Pow256(k)
    ensures n / 256 < Pow256(k - 1)
    ensures Memory(Big, Word(k, n)) == Memory(Big, Word(k - 1, n / 256))[1..] + [ByteOf(n % 256)]
    ensures Be(k, n) == Be(k - 1, n / 256) + [ByteOf(n % 256)]
  {
    hide Memory, ByteOf, Word, Be;
    WordLast(k, n);
    ShiftIn(Word(k - 1, n / 256), ByteOf(n % 256));
  }

  lemma {:induction false} WordBytes(k: nat, n: nat)
    requires k <= 8 && n < Pow256(k)
    ensures Memory(Big, Word(k, n)) == Zeros(8 - k) + Be(k, n)
  {
    hide Memory, ByteOf, Word, Be;
    if k == 0 {
      WordNone(n);
    } else {
      WordShift(k, n);
      WordBytes(k - 1, n / 256);
      ZerosLess(9 - k, Be(k - 1, n / 256), ByteOf(n % 256));
    }
  }

  lemma ZerosLess(k: nat, s: seq<bv8>, b: bv8)
    requires k > 0
    ensures (Zeros(k) + s)[1..] + [b] == Zeros(k - 1) + (s + [b])
  {
    assert (Zeros(k) + s)[1..] == Zeros(k - 1) + s;
  }

  lemma WordNone(n: nat)
    requires n < Pow256(0)
    ensures Memory(Big, Word(0, n)) == Zeros(8) + Be(0, n)
  {
    ZeroBytes();
  }

  lemma ZeroBytes()
    ensures Memory(Big, 0) == Zeros(8)
  {
    assert Memory(Big, 0) == [0, 0, 0, 0, 0, 0, 0, 0];
  }

  /** write64(): on a machine of either kind the bytes in memory, after conversion, are the number in network order. */
  lemma Write64Portable(e: Endian, n: u64)
    ensures n < Pow256(8) && Memory(e, Hton64(e, Word(8, n))) == Be(8, n)
  {
    hide Memory, Hton64, Word, Be;
    Powers();
    Hton64Portable(e, Word(8, n));
    WordBytes(8, n);
    assert Zeros(0) + Be(8, n) == Be(8, n);
  }
}

/** Growing strings and the numbers printed into them (str.c). */
module Numbers {
  import opened Bytes

  // ----- The reference -----

  function Digit(d: nat): char
    requires d < 10
  {
    '0' + d as char
  }

  /** The decimal digits of a number, without leading zeros; none for zero. */
  function Decimal(n: nat): string {
    if n == 0 then "" else Decimal(n / 10) + [Digit(n % 10)]
  }

  /** A separator before every group of three digits, counted from the right. */
  function Grouped(s: string): string {
    if |s| <= 3 then s else Grouped(s[..|s| - 3]) + "," + s[|s| - 3..]
  }

  function Printed(n: nat, sep: bool): string {
    if n == 0 then "0" else if sep then Grouped(Decimal(n)) else Decimal(n)
  }

  /** The number that a text stands for, separators disregarded. */
  function Parsed(s: string): nat {
    if s == "" then 0
    else
      var n, c := Parsed(s[..|s| - 1]), s[|s| - 1];
      if '0' <= c <= '9' then 10 * n + (c - '0') as nat else n
  }

  // ----- What the loops do -----

  function Comma(sep: bool, rem: nat, len: nat): string {
    if sep && rem > 0 && len % 3 == 0 then "," else ""
  }

  /** What is still to be printed, to the left of `len` digits. */
  function Rest(rem: nat, len: nat, sep: bool): string {
    if rem == 0 then ""
    else Rest(rem / 10, len + 1, sep) + (Comma(sep, rem / 10, len + 1) + [Digit(rem % 10)])
  }

  lemma {:induction false} RestPlain(n: nat, len: nat)
    ensures Rest(n, len, false) == Decimal(n)
  {
    if n > 0 {
      RestPlain(n / 10, len + 1);
    }
  }

  lemma ThreeDigits(n: nat)
    requires n >= 1000
    ensures Decimal(n) == Decimal(n / 1000) + [Digit(n / 100 % 10), Digit(n / 10 % 10), Digit(n % 10)]
  {
    assert n / 10 / 10 == n / 100 && n / 100 / 10 == n / 1000;
    assert Decimal(n / 100) == Decimal(n / 1000) + [Digit(n / 100 % 10)];
    assert Decimal(n / 10) == Decimal(n / 100) + [Digit(n / 10 % 10)];
  }

  lemma RestThree(n: nat, len: nat)
    requires n >= 1000 && len % 3 == 0
    ensures Rest(n, len, true)
            == Rest(n / 1000, len + 3, true) + "," + [Digit(n / 100 % 10), Digit(n / 10 % 10), Digit(n % 10)]
  {
    hide Rest, Digit;
    var a, b, c := n % 10, n / 10 % 10, n / 100 % 10;
    assert n / 10 / 10 == n / 100 && n / 100 / 10 == n / 1000;
    assert (len + 1) % 3 == 1 && (len + 2) % 3 == 2 && (len + 3) % 3 == 0;
    RestOne(n, len);
    RestOne(n / 10, len + 1);
    RestOne(n / 100, len + 2);
    var r := Rest(n / 1000, len + 3, true);
    assert ((r + ("," + [Digit(c)])) + ("" + [Digit(b)])) + ("" + [Digit(a)]) == r + "," + [Digit(c), Digit(b), Digit(a)];
  }

  lemma RestOne(n: nat, len: nat)
    requires n >= 10
    ensures Rest(n, len, true)
            == Rest(n / 10, len + 1, true) + ((if (len + 1) % 3 == 0 then "," else "") + [Digit(n % 10)])
  {
    hide Digit;
  }

  /** Starting at a multiple of three digits, the separators fall between the groups. */
  lemma {:induction false} RestGrouped(n: nat, k: nat)
    requires n > 0
    ensures Rest(n, 3 * k, true) == Grouped(Decimal(n))
  {
    if n >= 1000 {
      hide Rest, Decimal;
      var s := Decimal(n);
      RestGrouped(n / 1000, k + 1);
      RestThree(n, 3 * k);
      ThreeDigits(n);
      DecimalSome(n / 1000);
      assert s[..|s| - 3] == Decimal(n / 1000);
    } else {
      RestSmall(n, 3 * k);
    }
  }

  lemma DecimalSome(n: nat)
    ensures n > 0 ==> |Decimal(n)| >= 1
  {
  }

  lemma RestSmall(n: nat, len: nat)
    requires 0 < n < 1000 && len % 3 == 0
    ensures Rest(n, len, true) == Decimal(n) == Grouped(Decimal(n))
  {
    assert n / 10 / 10 == n / 100 && n / 100 / 10 == 0;
    assert Decimal(n / 100 / 10) == "" && Rest(n / 100 / 10, len + 3, true) == "";
    assert Rest(n / 100, len + 2, true) == Decimal(n / 100) && |Decimal(n / 100)| <= 1;
    assert Rest(n / 10, len + 1, true) == Decimal(n / 10) && |Decimal(n / 10)| <= 2;
  }

  lemma RestPrinted(n: nat, sep: bool)
    requires n > 0
    ensures Rest(n, 0, sep) == Printed(n, sep)
  {
    if sep {
      RestGrouped(n, 0);
    } else {
      RestPlain(n, 0);
    }
  }

  // ----- What is printed -----

  lemma DigitBack(d: nat)
    requires d < 10
    ensures '0' <= Digit(d) <= '9' && (Digit(d) - '0') as nat == d
  {
  }

  lemma {:induction false} ParsedDecimal(n: nat)
    ensures Parsed(Decimal(n)) == n
  {
    if n > 0 {
      ParsedDecimal(n / 10);
      DigitBack(n % 10);
      var s := Decimal(n);
      assert s[..|s| - 1] == Decimal(n / 10);
    }
  }

  ghost predicate AllDigits(s: string) {
    forall i :: 0 <= i < |s| ==> '0' <= s[i] <= '9'
  }

  lemma {:induction false} DecimalDigits(n: nat)
    ensures AllDigits(Decimal(n)) && (n > 0 ==> Decimal(n) != "" && Decimal(n)[0] != '0')
  {
    if n > 0 {
      DecimalDigits(n / 10);
      DigitBack(n % 10);
    }
  }

  function Times10(n: nat, k: nat): nat {
    if k == 0 then n else 10 * Times10(n, k - 1)
  }

  lemma {:induction false} ParsedConcat(s: string, t: string)
    requires AllDigits(t)
    ensures Parsed(s + t) == Times10(Parsed(s), |t|) + Parsed(t)
  {
    if t == "" {
      assert s + t == s;
    } else {
      var u := t[..|t| - 1];
      ParsedConcat(s, u);
      assert (s + t)[..|s + t| - 1] == s + u;
    }
  }

  lemma {:induction false} ParsedGrouped(s: string)
    requires AllDigits(s)
    ensures Parsed(Grouped(s)) == Parsed(s)
  {
    if |s| > 3 {
      var a, b := s[..|s| - 3], s[|s| - 3..];
      ParsedGrouped(a);
      ParsedConcat(a, b);
      ParsedConcat(Grouped(a) + ",", b);
      assert (Grouped(a) + ",")[..|Grouped(a)|] == Grouped(a);
      assert s == a + b;
    }
  }

  /** What is printed can be read back, and has no leading zero. */
  lemma PrintedParses(n: nat, sep: bool)
    ensures Parsed(Printed(n, sep)) == n && Printed(n, sep) != "" && (n > 0 ==> Printed(n, sep)[0] != '0')
  {
    if n == 0 {
      assert "0"[..0] == "" && Parsed("0") == 10 * Parsed("") + 0;
    } else {
      ParsedDecimal(n);
      DecimalDigits(n);
      ParsedGrouped(Decimal(n));
      GroupedFirst(Decimal(n));
    }
  }

  lemma {:induction false} GroupedFirst(s: string)
    ensures s != "" ==> Grouped(s) != "" && Grouped(s)[0] == s[0]
  {
    if |s| > 3 {
      GroupedFirst(s[..|s| - 3]);
    }
  }

  lemma {:induction false} GroupedLength(s: string)
    ensures |Grouped(s)| == if s == "" then 0 else |s| + (|s| - 1) / 3
  {
    if |s| > 3 {
      GroupedLength(s[..|s| - 3]);
    }
  }

  /** Counted from the right, every fourth character is a separator, and no other. */
  lemma {:induction false} GroupedSeparators(s: string, k: nat)
    requires AllDigits(s) && k < |Grouped(s)|
    ensures Grouped(s)[|Grouped(s)| - 1 - k] == ',' <==> k % 4 == 3
  {
    if |s| > 3 {
      var a := s[..|s| - 3];
      var g := Grouped(a);
      assert |Grouped(s)| == |g| + 4;
      if k >= 4 {
        GroupedSeparators(a, k - 4);
        assert Grouped(s)[|Grouped(s)| - 1 - k] == g[|g| - 1 - (k - 4)];
      }
    }
  }

  lemma {:induction false} DecimalLength(n: nat, d: nat)
    requires n < Times10(1, d)
    ensures |Decimal(n)| <= d
  {
    if n > 0 {
      if d == 0 {
        assert false;
      } else {
        DecimalLength(n / 10, d - 1);
      }
    }
  }

  lemma Widths()
    ensures Times10(1, 10) == 1_0000_000_000 && Times10(1, 20) == 100_000_000_000_000_000_000
  {
    assert Times10(1, 5) == 100_000;
    assert Times10(1, 10) == 10_000_000_000;
    assert Times10(1, 15) == 1_000_000_000_000_000;
  }

  /** A 64-bit number takes at most 26 characters, a 32-bit number at most 13. */
  lemma PrintedFits(n: nat, sep: bool)
    ensures n < U64 ==> |Printed(n, sep)| <= 26
    ensures n < 0x1_0000_0000 ==> |Printed(n, sep)| <= 13
  {
    Widths();
    if 0 < n < U64 {
      DecimalLength(n, 20);
      GroupedLength(Decimal(n));
    }
    if 0 < n < 0x1_0000_0000 {
      DecimalLength(n, 10);
    }
  }

  // ----- The code -----

  const I32_MAXLEN: nat := 13
  const I64_MAXLEN: nat := 26

  /** What one digit of the loops puts to the left of what is there. */
  lemma RestStep(rem: nat, len: nat, sep: bool, right: string)
    requires rem > 0
    ensures Rest(rem, len, sep) + right
            == Rest(rem / 10, len + 1, sep) + (Comma(sep, rem / 10, len + 1) + ([Digit(rem % 10)] + right))
    ensures |Rest(rem, len, sep)| == |Rest(rem / 10, len + 1, sep)| + |Comma(sep, rem / 10, len + 1)| + 1
  {
    var a, b, c := Rest(rem / 10, len + 1, sep), Comma(sep, rem / 10, len + 1), [Digit(rem % 10)];
    assert (a + (b + c)) + right == a + (b + (c + right));
  }

  /** The body of the three loops: one digit, and a separator if one is due and something is left. */
  method PutDigit(out: array<char>, pos: int, rem: nat, len: nat, sep: bool) returns (pos': int)
    requires rem > 0 && -1 <= pos < out.Length && |Rest(rem, len, sep)| <= pos + 1
    modifies out
    ensures -1 <= pos' < pos && |Rest(rem / 10, len + 1, sep)| <= pos' + 1
    ensures Rest(rem, len, sep) + old(out[pos + 1..]) == Rest(rem / 10, len + 1, sep) + out[pos' + 1..]
  {
    hide Rest;
    ghost var right := out[pos + 1..];
    ghost var tail := Comma(sep, rem / 10, len + 1) + ([Digit(rem % 10)] + right);
    RestStep(rem, len, sep, right);
    var next := rem / 10;
    var digit := rem - next * 10;
    assert digit == rem % 10;
    out[pos] := Digit(digit);
    pos' := pos - 1;
    assert out[pos..] == [Digit(rem % 10)] + right;
    if sep && next > 0 && (len + 1) % 3 == 0 {
      out[pos'] := ',';
      pos' := pos' - 1;
      assert out[pos..] == [Digit(rem % 10)] + right;
      assert out[pos' + 1..] == "," + out[pos..];
    }
    assert out[pos' + 1..] == tail;
  }

  class Str {
    var buf: array<char>
    var len: nat
    var pool: nat

    ghost predicate Valid()
      reads this
    {
      len <= pool == buf.Length && pool >= 1024
    }

    ghost function Contents(): string
      requires Valid()
      reads this, buf
    {
      buf[..len]
    }

    constructor ()
      ensures Valid() && Contents() == "" && fresh(buf)
    {
      len, pool := 0, 1024;
      buf := new char[1024];
    }

    /** The pool doubles until there is room for `n` more characters. */
    method Grow(n: nat)
      requires Valid()
      modifies this`buf, this`pool
      ensures Valid() && Contents() == old(Contents()) && len + n <= pool && (buf == old(buf) || fresh(buf))
    {
      if pool < len + n {
        var p := pool;
        while p < len + n
          invariant p >= pool
          decreases len + n - p
          modifies {}
        {
          p := p * 2;
        }
        var wider := new char[p];
        for i := 0 to len
          invariant wider[..i] == buf[..i]
          modifies wider
        {
          wider[i] := buf[i];
        }
        buf, pool := wider, p;
      }
    }

    method Appendn(s: string)
      requires Valid()
      modifies this, buf
      ensures Valid() && Contents() == old(Contents()) + s && (buf == old(buf) || fresh(buf))
    {
      Grow(|s|);
      ghost var start := Contents();
      for i := 0 to |s|
        invariant buf[..len + i] == start + s[..i]
        modifies buf
      {
        buf[len + i] := s[i];
        assert buf[..len + i + 1] == buf[..len + i] + [s[i]];
      }
      assert s[..|s|] == s;
      len := len + |s|;
    }

    method AppendU32(i: nat, sep: bool)
      requires Valid() && i < 0x1_0000_0000
      modifies this, buf
      ensures Valid() && Contents() == old(Contents()) + Printed(i, sep)
    {
      var text := PrintU32(i, sep);
      Appendn(text);
    }

    method AppendU64(i: u64, sep: bool)
      requires Valid()
      modifies this, buf
      ensures Valid() && Contents() == old(Contents()) + Printed(i, sep)
    {
      var text := PrintU64(i, sep);
      Appendn(text);
    }
  }

  /** The digits of a 32-bit number, put into a buffer of 13 characters from the right. */
  method PrintU32(i: nat, sep: bool) returns (text: string)
    requires i < 0x1_0000_0000
    ensures text == Printed(i, sep)
  {
    if i == 0 {
      return "0";
    }
    hide Rest, Printed;
    RestPrinted(i, sep);
    PrintedFits(i, sep);
    var out := new char[I32_MAXLEN];
    var pos: int, n: nat, rem: nat := I32_MAXLEN - 1, 0, i;
    assert Printed(i, sep) + out[pos + 1..] == Printed(i, sep);
    while rem > 0
      invariant -1 <= pos < out.Length && |Rest(rem, n, sep)| <= pos + 1
      invariant Printed(i, sep) == Rest(rem, n, sep) + out[pos + 1..]
    {
      pos := PutDigit(out, pos, rem, n, sep);
      n, rem := n + 1, rem / 10;
    }
    RestZero(n, sep);
    text := out[pos + 1..];
    assert "" + text == text;
  }

  /** The same for 64 bits and 26 characters, in 32-bit arithmetic as soon as the rest allows it. */
  method PrintU64(i: u64, sep: bool) returns (text: string)
    ensures text == Printed(i, sep)
  {
    if i == 0 {
      return "0";
    }
    hide Rest, Printed;
    RestPrinted(i, sep);
    PrintedFits(i, sep);
    var out := new char[I64_MAXLEN];
    var pos: int, n: nat, rem: nat := I64_MAXLEN - 1, 0, i;
    assert Printed(i, sep) + out[pos + 1..] == Printed(i, sep);
    while rem >= 4294967295
      invariant -1 <= pos < out.Length && |Rest(rem, n, sep)| <= pos + 1
      invariant Printed(i, sep) == Rest(rem, n, sep) + out[pos + 1..]
    {
      pos := PutDigit(out, pos, rem, n, sep);
      n, rem := n + 1, rem / 10;
    }
    var rem32: nat := rem % 0x1_0000_0000;
    assert rem32 == rem;
    while rem32 > 0
      invariant -1 <= pos < out.Length && |Rest(rem32, n, sep)| <= pos + 1
      invariant Printed(i, sep) == Rest(rem32, n, sep) + out[pos + 1..]
    {
      pos := PutDigit(out, pos, rem32, n, sep);
      n, rem32 := n + 1, rem32 / 10;
    }
    RestZero(n, sep);
    text := out[pos + 1..];
    assert "" + text == text;
  }

  lemma RestZero(len: nat, sep: bool)
    ensures Rest(0, len, sep) == ""
  {
  }
}

/** Bytes, the source's bit operators, and bit strings written least significant bit first. */
module BitStrings {
  import opened Sequences

  type byte = x: int | 0 <= x < 256

  function Pow2(n: nat): (p: nat)
    ensures p >= 1
  {
    if n == 0 then 1 else 2 * Pow2(n - 1)
  }

  /** `x & y` on non-negative integers. */
  function And(x: nat, y: nat): nat {
    if x == 0 || y == 0 then 0
    else (if x % 2 == 1 && y % 2 == 1 then 1 else 0) + 2 * And(x / 2, y / 2)
  }

  /** `x << n` without overflow. */
  function Shl(x: nat, n: nat): nat {
    if n == 0 then x else 2 * Shl(x, n - 1)
  }

  /** `x >> n` on non-negative integers. */
  function Shr(x: nat, n: nat): nat {
    if n == 0 then x else Shr(x / 2, n - 1)
  }

  /** The number a bit string stands for. */
  function Value(b: seq<bool>): nat {
    if b == [] then 0 else (if b[0] then 1 else 0) + 2 * Value(b[1..])
  }

  /** The low w bits of x. */
  function ToBits(x: nat, w: nat): (b: seq<bool>)
    ensures |b| == w
  {
    if w == 0 then [] else [x % 2 == 1] + ToBits(x / 2, w - 1)
  }

  function Bits(bytes: seq<byte>): (b: seq<bool>)
    ensures |b| == 8 * |bytes|
  {
    if bytes == [] then [] else ToBits(bytes[0], 8) + Bits(bytes[1..])
  }

  /** Bits gathered eight at a time; the last byte is filled up with zero bits. */
  function PackBytes(bits: seq<bool>): seq<byte>
    decreases |bits|
  {
    if bits == [] then [] else
    var h := if |bits| <= 8 then bits else bits[..8];
    ByteBound(h);
    [Value(h)] + PackBytes(bits[|h|..])
  }

  /** The bytes as one number, least significant byte first. */
  function LittleEndian(bytes: seq<byte>): nat {
    if bytes == [] then 0 else bytes[0] + 256 * LittleEndian(bytes[1..])
  }

  lemma {:induction false} Pow2Monotone(m: nat, n: nat)
    requires m <= n
    ensures Pow2(m) <= Pow2(n)
  {
    if m < n { Pow2Monotone(m, n - 1); }
  }

  lemma {:induction false} ValueBound(b: seq<bool>)
    ensures Value(b) < Pow2(|b|)
  {
    if b != [] { ValueBound(b[1..]); }
  }

  lemma ByteBound(b: seq<bool>)
    requires |b| <= 8
    ensures Value(b) < 256
  {
    ValueBound(b);
    Pow2Monotone(|b|, 8);
    assert Pow2(8) == 256;
  }

  /** Masking a number with 2^w - 1 keeps its low w bits. */
  lemma {:induction false} MaskTakesLowBits(b: seq<bool>, w: nat)
    requires w <= |b|
    ensures And(Value(b), Pow2(w) - 1) == Value(b[..w])
  {
    if w > 0 {
      MaskTakesLowBits(b[1..], w - 1);
      assert b[..w][1..] == b[1..][..w - 1];
      AndOddMask(Value(b), Pow2(w - 1));
      assert Value(b) / 2 == Value(b[1..]);
    }
  }

  lemma AndOddMask(x: nat, m: nat)
    requires m >= 1
    ensures And(x, 2 * m - 1) == x % 2 + 2 * And(x / 2, m - 1)
  {
    var y := 2 * m - 1;
    assert y % 2 == 1 && y / 2 == m - 1;
  }

  /** Shifting a number right by w drops its low w bits. */
  lemma {:induction false} ShiftDropsLowBits(b: seq<bool>, w: nat)
    requires w <= |b|
    ensures Shr(Value(b), w) == Value(b[w..])
  {
    if w > 0 {
      ShiftDropsLowBits(b[1..], w - 1);
      assert b[1..][w - 1..] == b[w..];
      assert Value(b) / 2 == Value(b[1..]);
    } else {
      assert b[0..] == b;
    }
  }

  /** Adding a number shifted left above the bits of a appends its bits. */
  lemma {:induction false} ValueConcat(a: seq<bool>, b: seq<bool>)
    ensures Value(a + b) == Value(a) + Shl(Value(b), |a|)
  {
    if a == [] {
      assert a + b == b;
    } else {
      ValueConcat(a[1..], b);
      assert (a + b)[1..] == a[1..] + b;
    }
  }

  lemma {:induction false} ValueOfByte(x: nat, w: nat)
    requires x < Pow2(w)
    ensures Value(ToBits(x, w)) == x
  {
    if w > 0 {
      ValueOfByte(x / 2, w - 1);
      assert ToBits(x, w)[1..] == ToBits(x / 2, w - 1);
    }
  }

  /** Writing a value in more bits than it came from pads it with zero bits. */
  lemma {:induction false} ToBitsOfValue(b: seq<bool>, w: nat)
    requires |b| <= w
    ensures b <= ToBits(Value(b), w)
  {
    if b != [] {
      ToBitsOfValue(b[1..], w - 1);
      assert Value(b) / 2 == Value(b[1..]);
      var r := ToBits(Value(b[1..]), w - 1);
      assert ToBits(Value(b), w) == [b[0]] + r;
      assert b == [b[0]] + b[1..];
    }
  }

  lemma {:induction false} BitsConcat(a: seq<byte>, b: seq<byte>)
    ensures Bits(a + b) == Bits(a) + Bits(b)
  {
    if a == [] {
      assert a + b == b;
      assert Bits(a) + Bits(b) == Bits(b);
    } else {
      BitsConcat(a[1..], b);
      var s := a + b;
      assert s[0] == a[0] && s[1..] == a[1..] + b;
      Associates(ToBits(a[0], 8), Bits(a[1..]), Bits(b));
    }
  }

  /** Unpacking packed bits gives them back, followed by padding. */
  lemma {:induction false} PackBytesKeepsBits(bits: seq<bool>)
    ensures bits <= Bits(PackBytes(bits))
    decreases |bits|
  {
    if bits != [] {
      var h := if |bits| <= 8 then bits else bits[..8];
      var rest := bits[|h|..];
      PackBytesKeepsBits(rest);
      ToBitsOfValue(h, 8);
      ByteBound(h);
      var p := PackBytes(bits);
      assert p[0] == Value(h) && p[1..] == PackBytes(rest);
      PrefixConcat(h, ToBits(Value(h), 8), rest, Bits(p[1..]));
      assert bits == h + rest;
    }
  }

  lemma PrefixConcat(a: seq<bool>, a': seq<bool>, b: seq<bool>, b': seq<bool>)
    requires a <= a' && b <= b'
    requires |a| == |a'| || b == []
    ensures a + b <= a' + b'
  {
  }

  lemma {:induction false} BitsAreLittleEndian(bytes: seq<byte>)
    ensures Value(Bits(bytes)) == LittleEndian(bytes)
  {
    if bytes != [] {
      BitsAreLittleEndian(bytes[1..]);
      assert Pow2(8) == 256;
      ValueOfByte(bytes[0], 8);
      ValueConcat(ToBits(bytes[0], 8), Bits(bytes[1..]));
      ShlIsProduct(LittleEndian(bytes[1..]), 8);
    }
  }

  /** A field of w bits at offset o is the number divided by 2^o, modulo 2^w. */
  lemma FieldOfNumber(bits: seq<bool>, o: nat, w: nat)
    requires o + w <= |bits|
    ensures Value(bits[o..o + w]) == Value(bits) / Pow2(o) % Pow2(w)
  {
    var r := bits[o..];
    assert bits[o..o + w] == r[..w] && bits == bits[..o] + r && r == r[..w] + r[w..];
    SplitByDivision(bits, o);
    SplitByDivision(r, w);
  }

  lemma SplitByDivision(b: seq<bool>, w: nat)
    requires w <= |b|
    ensures Value(b[..w]) == Value(b) % Pow2(w) && Value(b[w..]) == Value(b) / Pow2(w)
  {
    assert b == b[..w] + b[w..];
    ValueConcat(b[..w], b[w..]);
    ValueBound(b[..w]);
    ShlIsProduct(Value(b[w..]), w);
    DivModUnique(Value(b), Pow2(w), Value(b[w..]), Value(b[..w]));
  }

  lemma {:induction false} ShlIsProduct(x: nat, n: nat)
    ensures Shl(x, n) == Pow2(n) * x
  {
    if n > 0 { ShlIsProduct(x, n - 1); }
  }

  lemma DivModUnique(x: int, m: int, q: int, r: int)
    requires 0 <= r < m && x == m * q + r
    ensures x / m == q && x % m == r
  {
    var q' := x / m;
    if q > q' {
      NextMultiple(m, q', q);
    } else if q < q' {
      NextMultiple(m, q, q');
    }
  }

  lemma NextMultiple(m: int, k: int, n: int)
    requires m >= 0 && k < n
    ensures m * k + m <= m * n
  {
    assert m * n == m * k + m + m * (n - k - 1);
    assert m * (n - k - 1) >= 0;
  }
}

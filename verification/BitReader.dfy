/**
 The bit reader of the Teledisk decompressor: single bits and unaligned bytes are
 taken, most significant bit first, from one stream of input bytes.
 */
module BitReader {

  import opened Bytes

  function Pow2(n: nat): (p: nat)
    ensures p > 0
  {
    if n == 0 then 1 else 2 * Pow2(n - 1)
  }

  lemma SmallPowers()
    ensures Pow2(0) == 1 && Pow2(1) == 2 && Pow2(2) == 4 && Pow2(3) == 8 && Pow2(4) == 16
    ensures Pow2(5) == 32 && Pow2(6) == 64 && Pow2(7) == 128 && Pow2(8) == 256
  {
  }

  lemma Pow2Eight()
    ensures Pow2(8) == 256
  {
    SmallPowers();
  }

  // ------------------------------------------------------------ bit strings

  predicate IsBits(s: seq<nat>) {
    forall k: nat | k < |s| :: s[k] < 2
  }

  // A bit string read as a binary number.
  function Number(s: seq<nat>): (n: nat)
    requires IsBits(s)
    ensures n < Pow2(|s|)
  {
    if s == [] then 0 else 2 * Number(s[..|s| - 1]) + s[|s| - 1]
  }

  // x >> k
  function Shr(x: nat, k: nat): (r: nat)
  {
    if k == 0 then x else Shr(x, k - 1) / 2
  }

  // Bit p of the input, counting from the most significant bit of byte 0.
  function Bit(input: seq<Byte>, p: nat): (r: nat)
    requires p < 8 * |input|
    ensures r < 2
  {
    Shr(input[p / 8], 7 - p % 8) % 2
  }

  // The bits from p up to, but not including, q.
  function Bits(input: seq<Byte>, p: nat, q: nat): (r: seq<nat>)
    requires p <= q <= 8 * |input|
    ensures |r| == q - p && IsBits(r)
    ensures forall k: nat | k < q - p :: r[k] == Bit(input, p + k)
  {
    if p == q then [] else Bits(input, p, q - 1) + [Bit(input, q - 1)]
  }

  lemma Twice(x: nat, y: nat)
    ensures 2 * x * y == 2 * (x * y)
  {
  }

  lemma {:induction false} PowerSum(m: nat, n: nat)
    ensures Pow2(m) * Pow2(n) == Pow2(m + n)
  {
    if m > 0 {
      PowerSum(m - 1, n);
      Twice(Pow2(m - 1), Pow2(n));
    }
  }

  // The number hi followed by the k-bit number lo.
  function Join(hi: nat, lo: nat, k: nat): nat {
    hi * Pow2(k) + lo
  }

  lemma JoinNothing(x: nat, r: nat)
    requires r < Pow2(0)
    ensures Join(x, r, 0) == x
  {
  }

  // Three numbers in a row.
  lemma JoinJoin(x: nat, y: nat, m: nat, z: nat, n: nat)
    requires y < Pow2(m) && z < Pow2(n)
    ensures Join(Join(x, y, m), z, n) == Join(x, Join(y, z, n), m + n)
    ensures Join(y, z, n) < Pow2(m + n)
  {
    PowerSum(m, n);
    Distribute(x, Pow2(m), y, Pow2(n));
    Bounded(y, Pow2(m), Pow2(n));
  }

  lemma Scale(x: int, n: nat)
    ensures x * Pow2(n + 1) == 2 * (x * Pow2(n))
  {
    assert Pow2(n + 1) == 2 * Pow2(n);
  }

  lemma {:induction false} NumberConcat(a: seq<nat>, b: seq<nat>)
    requires IsBits(a) && IsBits(b)
    ensures IsBits(a + b) && Number(a + b) == Join(Number(a), Number(b), |b|)
  {
    if b == [] {
      assert a + b == a;
    } else {
      var n := |b| - 1;
      NumberConcat(a, b[..n]);
      assert (a + b)[..|a| + n] == a + b[..n];
      Scale(Number(a), n);
    }
  }

  lemma NumberSnoc(a: seq<nat>, b: nat)
    requires IsBits(a) && b < 2
    ensures IsBits(a + [b]) && Number(a + [b]) == 2 * Number(a) + b
  {
    assert (a + [b])[..|a|] == a;
  }

  lemma {:induction false} BitsConcat(input: seq<Byte>, p: nat, q: nat, r: nat)
    requires p <= q <= r <= 8 * |input|
    ensures Bits(input, p, r) == Bits(input, p, q) + Bits(input, q, r)
  {
  }

  lemma BitInByte(input: seq<Byte>, q: nat, k: nat)
    requires q < |input| && k < 8
    ensures Bit(input, 8 * q + k) == Shr(input[q], 7 - k) % 2
  {
    assert (8 * q + k) / 8 == q && (8 * q + k) % 8 == k;
  }

  // The bits of a byte, most significant first.
  lemma BitsOfByte(input: seq<Byte>, q: nat)
    requires q < |input|
    ensures input[q] == 128 * Bit(input, 8 * q) + 64 * Bit(input, 8 * q + 1) + 32 * Bit(input, 8 * q + 2)
      + 16 * Bit(input, 8 * q + 3) + 8 * Bit(input, 8 * q + 4) + 4 * Bit(input, 8 * q + 5)
      + 2 * Bit(input, 8 * q + 6) + Bit(input, 8 * q + 7)
  {
    hide Bit, Shr;
    BitInByte(input, q, 0);
    BitInByte(input, q, 1);
    BitInByte(input, q, 2);
    BitInByte(input, q, 3);
    BitInByte(input, q, 4);
    BitInByte(input, q, 5);
    BitInByte(input, q, 6);
    BitInByte(input, q, 7);
    ByteOfBits(input[q]);
  }

  lemma ByteOfBits(x: nat)
    requires x < 256
    ensures x == 128 * (Shr(x, 7) % 2) + 64 * (Shr(x, 6) % 2) + 32 * (Shr(x, 5) % 2) + 16 * (Shr(x, 4) % 2)
      + 8 * (Shr(x, 3) % 2) + 4 * (Shr(x, 2) % 2) + 2 * (Shr(x, 1) % 2) + Shr(x, 0) % 2
  {
    hide Shr;
    ShrOnce(x, 0);
    ShrOnce(x, 1);
    ShrOnce(x, 2);
    ShrOnce(x, 3);
    ShrOnce(x, 4);
    ShrOnce(x, 5);
    ShrOnce(x, 6);
    ShrNone(x);
    SumOfBits(x, Shr(x, 1), Shr(x, 2), Shr(x, 3), Shr(x, 4), Shr(x, 5), Shr(x, 6), Shr(x, 7));
  }

  lemma SumOfBits(a: nat, b: nat, c: nat, d: nat, e: nat, f: nat, g: nat, h: nat)
    requires a < 256 && b == a / 2 && c == b / 2 && d == c / 2 && e == d / 2 && f == e / 2 && g == f / 2 && h == g / 2
    ensures a == 128 * (h % 2) + 64 * (g % 2) + 32 * (f % 2) + 16 * (e % 2)
      + 8 * (d % 2) + 4 * (c % 2) + 2 * (b % 2) + a % 2
  {
    assert h < 2 && e < 16 && e == 8 * (h % 2) + 4 * (g % 2) + 2 * (f % 2) + e % 2;
    assert a == 16 * e + 8 * (d % 2) + 4 * (c % 2) + 2 * (b % 2) + a % 2;
  }

  lemma ShrOnce(x: nat, k: nat)
    ensures Shr(x, k + 1) == Shr(x, k) / 2
  {
  }

  lemma ShrNone(x: nat)
    ensures Shr(x, 0) == x
  {
  }

  lemma ShrNext(x: nat, k: nat)
    ensures Shr(x, k + 1) == Shr(x, k) / 2
  {
  }

  lemma BitsSnoc(input: seq<Byte>, p: nat, q: nat)
    requires p <= q < 8 * |input|
    ensures Bits(input, p, q + 1) == Bits(input, p, q) + [Bit(input, q)]
  {
  }

  lemma ShrEight(x: Byte)
    ensures Shr(x, 8) == 0
  {
    assert Shr(x, 1) == x / 2;
    assert Shr(x, 2) == x / 4;
    assert Shr(x, 4) == x / 16;
    assert Shr(x, 6) == x / 64;
  }

  lemma BytePrefixSnoc(input: seq<Byte>, q: nat, j: nat)
    requires q < |input| && j < 8
    requires Number(Bits(input, 8 * q, 8 * q + 7 - j)) == Shr(input[q], j + 1)
    ensures Number(Bits(input, 8 * q, 8 * q + 8 - j)) == Shr(input[q], j)
  {
    hide Bit, Bits, Number, Shr;
    var p := 8 * q + 7 - j;
    BitInByte(input, q, 7 - j);
    NumberSnoc(Bits(input, 8 * q, p), Bit(input, p));
    BitsSnoc(input, 8 * q, p);
    ShrNext(input[q], j);
  }

  lemma BytePrefixEmpty(input: seq<Byte>, q: nat)
    requires q < |input|
    ensures Number(Bits(input, 8 * q, 8 * q)) == 0
  {
  }

  // The first 8 - j bits of byte q.
  lemma {:induction false} BytePrefix(input: seq<Byte>, q: nat, j: nat)
    requires q < |input| && j <= 8
    ensures Number(Bits(input, 8 * q, 8 * q + 8 - j)) == Shr(input[q], j)
    decreases 8 - j
  {
    hide Bit, Bits, Number, Shr;
    if j == 8 {
      BytePrefixEmpty(input, q);
      ShrEight(input[q]);
    } else {
      BytePrefix(input, q, j + 1);
      BytePrefixSnoc(input, q, j);
    }
  }

  // The eight bits of byte q are that byte.
  lemma ByteBits(input: seq<Byte>, q: nat)
    requires q < |input|
    ensures Number(Bits(input, 8 * q, 8 * q + 8)) == input[q]
  {
    BytePrefix(input, q, 0);
  }

  // ----------------------------------------------------- the 16-bit window

  // The low 16 bits of w are the n-bit number v, left-aligned; what has been
  // shifted out above them is of no interest.
  ghost predicate Window(w: nat, v: nat, n: nat) {
    n <= 16 && v < Pow2(n) && w % 0x1_0000 == v * Pow2(16 - n)
  }

  lemma Factors(n: nat)
    requires n <= 16
    ensures Pow2(n) * Pow2(16 - n) == 0x1_0000
  {
    PowerSum(n, 16 - n);
    assert Pow2(4) == 16;
    Pow2Eight();
    assert Pow2(12) == 4096;
    assert Pow2(16) == 0x1_0000;
  }

  lemma Distribute(hi: nat, p: nat, lo: nat, q: nat)
    ensures (hi * p + lo) * q == hi * (p * q) + lo * q
  {
  }

  lemma Product(a: nat, b: nat)
    ensures a * b >= 0
  {
  }

  lemma Bounded(x: nat, p: nat, q: nat)
    requires x < p
    ensures 0 <= x * q <= p * q - q
  {
    Product(p - 1 - x, q);
    Product(x, q);
    assert (p - 1 - x) * q == p * q - q - x * q;
  }

  lemma JoinByte(hi: nat, lo: nat)
    ensures Join(hi, lo, 8) == hi * 256 + lo
  {
    Pow2Eight();
  }

  // A window of k + m bits is its top k bits over its other m bits.
  lemma WindowSplit(w: nat, hi: nat, lo: nat, k: nat, m: nat)
    requires lo < Pow2(m) && Window(w, Join(hi, lo, m), k + m)
    ensures w % 0x1_0000 == hi * Pow2(16 - k) + lo * Pow2(16 - (k + m))
    ensures 0 <= lo * Pow2(16 - (k + m)) < Pow2(16 - k)
  {
    var q := Pow2(16 - (k + m));
    PowerSum(m, 16 - (k + m));
    Distribute(hi, Pow2(m), lo, q);
    Bounded(lo, Pow2(m), q);
  }

  lemma Quotient(w: int, q: int, d: int, r: int)
    requires 0 <= r < d && w == q * d + r
    ensures w / d == q && w % d == r
  {
    if w / d < q {
      MulMonotone(w / d + 1, q, d);
    } else if w / d > q {
      MulMonotone(q + 1, w / d, d);
    }
  }

  lemma MulMonotone(x: int, y: int, d: int)
    requires x <= y && d >= 0
    ensures x * d <= y * d
  {
  }

  lemma TopOfWord(w: nat, hi: nat, rest: nat)
    requires w % 0x1_0000 == hi * 0x8000 + rest && hi < 2 && rest < 0x8000
    ensures (w / 0x8000) % 2 == hi && (2 * w) % 0x1_0000 == 2 * rest
  {
    var h := w / 0x1_0000;
    Quotient(w, 2 * h + hi, 0x8000, rest);
    Quotient(2 * h + hi, h, 2, hi);
    Quotient(2 * w, 2 * h + hi, 0x1_0000, 2 * rest);
  }

  lemma TopByteOfWord(w: nat, hi: nat, rest: nat)
    requires w % 0x1_0000 == hi * 256 + rest && hi < 256 && rest < 256
    ensures (w / 256) % 256 == hi && (256 * w) % 0x1_0000 == 256 * rest
  {
    var h := w / 0x1_0000;
    Quotient(w, 256 * h + hi, 256, rest);
    Quotient(256 * h + hi, h, 256, hi);
    Quotient(256 * w, 256 * h + hi, 0x1_0000, 256 * rest);
  }

  lemma TopBit()
    ensures Pow2(15) == 0x8000
  {
    Factors(1);
  }

  // Shifting out the top bit.
  lemma TakeBit(w: nat, hi: nat, lo: nat, m: nat)
    requires hi < 2 && lo < Pow2(m) && Window(w, Join(hi, lo, m), 1 + m)
    ensures (w / 0x8000) % 2 == hi
    ensures Window(2 * w, lo, m)
  {
    hide Pow2;
    WindowSplit(w, hi, lo, 1, m);
    TopBit();
    TopOfWord(w, hi, lo * Pow2(16 - (1 + m)));
    Scale(lo, 16 - (1 + m));
  }

  // Shifting out the top byte.
  lemma TakeByte(w: nat, hi: nat, lo: nat, m: nat)
    requires hi < 256 && lo < Pow2(m) && Window(w, Join(hi, lo, m), 8 + m)
    ensures (w / 256) % 256 == hi
    ensures Window(256 * w, lo, m)
  {
    WindowSplit(w, hi, lo, 8, m);
    Pow2Eight();
    TopByteOfWord(w, hi, lo * Pow2(16 - (8 + m)));
    PowerSum(8, 16 - (8 + m));
    Rescale(lo, Pow2(16 - (8 + m)));
  }

  lemma Rescale(x: nat, q: nat)
    ensures x * (256 * q) == 256 * (x * q)
  {
  }

  // A number of k + 8 bits is a byte over the other k bits.
  lemma SplitByte(x: nat, k: nat) returns (b: nat, e: nat)
    requires x < Pow2(k + 8)
    ensures b < 256 && e < Pow2(k) && x == Join(b, e, k)
  {
    hide Pow2;
    var m := Pow2(k);
    b, e := x / m, x % m;
    assert x == b * m + e;
    PowerSum(8, k);
    Pow2Eight();
    if b >= 256 {
      MulMonotone(256, b, m);
    }
  }

  lemma AddToWord(w: nat, high: nat, low: nat)
    requires w % 0x1_0000 == high && high + low < 0x1_0000
    ensures (w + low) % 0x1_0000 == high + low
  {
  }

  // w | (c << (8 - n)), for a w whose low 16 - n bits are clear.
  function MergeIn(w: nat, c: nat, n: nat): nat
    requires n <= 8
  {
    w + c * Pow2(8 - n)
  }

  // Merging byte c in below the n buffered bits.  The two parts have no bit in
  // common, so that | is +: one is a multiple of 2^(16-n), the other is less.
  lemma Merge(w: nat, v: nat, n: nat, c: Byte)
    requires n <= 8 && Window(w, v, n)
    ensures w % 0x1_0000 == v * Pow2(16 - n) && c * Pow2(8 - n) < Pow2(16 - n)
    ensures Window(MergeIn(w, c, n), v * 256 + c, n + 8)
  {
    var q := Pow2(8 - n);
    Pow2Eight();
    PowerSum(8, 8 - n);
    PowerSum(n, 8);
    Factors(n);
    Bounded(c, 256, q);
    Bounded(v, Pow2(n), 256);
    Bounded(v, Pow2(n), Pow2(16 - n));
    AddToWord(w, v * Pow2(16 - n), c * q);
    Distribute(v, 256, c, q);
  }

  // ------------------------------------------------- the stream as numbers

  // The bits from p up to q as one number.
  function Value(input: seq<Byte>, p: nat, q: nat): nat
    requires p <= q <= 8 * |input|
  {
    Number(Bits(input, p, q))
  }

  lemma ValueSplit(input: seq<Byte>, p: nat, m: nat, q: nat)
    requires p <= m <= q <= 8 * |input|
    ensures Value(input, p, q) == Join(Value(input, p, m), Value(input, m, q), q - m)
    ensures Value(input, p, m) < Pow2(m - p) && Value(input, m, q) < Pow2(q - m)
  {
    hide Join, Bits;
    BitsConcat(input, p, m, q);
    NumberConcat(Bits(input, p, m), Bits(input, m, q));
  }

  lemma ValueBit(input: seq<Byte>, p: nat)
    requires p < 8 * |input|
    ensures Value(input, p, p + 1) == Bit(input, p)
  {
    BitsSnoc(input, p, p);
    NumberSnoc([], Bit(input, p));
    assert Bits(input, p, p + 1) == [] + [Bit(input, p)];
  }

  lemma ValueSnoc(input: seq<Byte>, p: nat, q: nat)
    requires p <= q <= 8 * |input|
    ensures q < 8 * |input| ==> Value(input, p, q + 1) == 2 * Value(input, p, q) + Bit(input, q)
  {
    if q < 8 * |input| {
      BitsSnoc(input, p, q);
      NumberSnoc(Bits(input, p, q), Bit(input, q));
    }
  }

  lemma LowWord(w: nat)
    ensures (w % 0x1_0000_0000) % 0x1_0000 == w % 0x1_0000
  {
  }

  lemma WindowWraps(w: nat, v: nat, n: nat)
    requires Window(w, v, n)
    ensures Window(w % 0x1_0000_0000, v, n)
  {
    LowWord(w);
  }

  // Handing out one bit of a window on the bits p..q.
  lemma BitOut(input: seq<Byte>, p: nat, q: nat, w: nat)
    requires p < q <= 8 * |input|
    requires Window(w, Value(input, p, q), q - p)
    ensures (w / 0x8000) % 2 == Bit(input, p)
    ensures Window((2 * w) % 0x1_0000_0000, Value(input, p + 1, q), q - p - 1)
  {
    hide Window, Value, Bit, Pow2, Join;
    ValueSplit(input, p, p + 1, q);
    ValueBit(input, p);
    TakeBit(w, Value(input, p, p + 1), Value(input, p + 1, q), q - p - 1);
    WindowWraps(2 * w, Value(input, p + 1, q), q - p - 1);
  }

  // Handing out one byte.
  lemma ByteOut(input: seq<Byte>, p: nat, q: nat, w: nat)
    requires p + 8 <= q <= 8 * |input|
    requires Window(w, Value(input, p, q), q - p)
    ensures (w / 256) % 256 == Value(input, p, p + 8)
    ensures Window((256 * w) % 0x1_0000_0000, Value(input, p + 8, q), q - p - 8)
  {
    hide Window, Value, Pow2, Join;
    Pow2Eight();
    ValueSplit(input, p, p + 8, q);
    TakeByte(w, Value(input, p, p + 8), Value(input, p + 8, q), q - p - 8);
    WindowWraps(256 * w, Value(input, p + 8, q), q - p - 8);
  }

  // The buffered bits of a reader that has taken `taken` bytes and still holds
  // the last n bits of them.
  ghost predicate Buffered(input: seq<Byte>, taken: nat, n: nat, buff: nat) {
    && taken <= |input|
    && n < 8
    && n <= 8 * taken
    && Window(buff, Value(input, 8 * taken - n, 8 * taken), n)
  }

  lemma ValueAppend(input: seq<Byte>, p: nat, q: nat)
    requires p <= 8 * q && q < |input|
    ensures Value(input, p, 8 * q + 8) == Value(input, p, 8 * q) * 256 + input[q]
  {
    assert Value(input, 8 * q, 8 * q + 8) == input[q] by {
      ByteBits(input, q);
    }
    hide Value, Pow2, Join;
    ValueSplit(input, p, 8 * q, 8 * q + 8);
    JoinByte(Value(input, p, 8 * q), input[q]);
  }

  // Merging in the next input byte.
  lemma ByteIn(input: seq<Byte>, taken: nat, n: nat, buff: nat)
    requires taken < |input| && Buffered(input, taken, n, buff)
    ensures Window(MergeIn(buff, input[taken], n), Value(input, 8 * taken - n, 8 * taken + 8), n + 8)
  {
    hide Window, Value, MergeIn;
    ValueAppend(input, 8 * taken - n, taken);
    Merge(buff, Value(input, 8 * taken - n, 8 * taken), n, input[taken]);
  }

  class Reader {
    const input: seq<Byte>
    // Bytes taken from the input so far.
    var taken: nat
    // Buffered bit count.
    var bits: nat
    // Left-aligned bit buffer, a 32-bit word.
    var buff: nat

    ghost predicate Valid()
      reads this
    {
      Buffered(input, taken, bits, buff)
    }

    // How many bits have been handed out.
    ghost function Position(): (p: nat)
      requires Valid()
      reads this
      ensures p <= 8 * |input|
    {
      8 * taken - bits
    }

    constructor (data: seq<Byte>)
      ensures Valid() && input == data && Position() == 0
    {
      input, taken, bits, buff := data, 0, 0, 0;
    }

    // The next input byte; None when the input ends too soon.
    method GetCharRaw() returns (c: Option<Byte>)
      requires taken <= |input|
      modifies this`taken
      ensures c.None? <==> old(taken) == |input|
      ensures c.Some? ==> c.value == input[old(taken)] && taken == old(taken) + 1
      ensures c.None? ==> taken == old(taken)
    {
      if taken == |input| {
        return None;
      }
      c := Some(input[taken]);
      taken := taken + 1;
    }

    // The next bit; None when the input is exhausted.
    method GetBit() returns (r: Option<nat>)
      requires Valid()
      modifies this
      ensures Valid()
      ensures r.None? <==> old(Position()) == 8 * |input|
      ensures r.Some? ==> r.value == Bit(input, old(Position())) && Position() == old(Position()) + 1
      ensures r.None? ==> Position() == old(Position())
    {
      hide Window, Value, Bit, MergeIn;
      ghost var p := Position();
      if bits == 0 {
        var c := GetCharRaw();
        if c.None? {
          return None;
        }
        ByteIn(input, taken - 1, 0, buff);
        buff := MergeIn(buff, c.value, 0);
        bits := 7;
      } else {
        bits := bits - 1;
      }
      BitOut(input, p, 8 * taken, buff);
      var t := (buff / 0x8000) % 2;
      buff := (2 * buff) % 0x1_0000_0000;
      r := Some(t);
    }

    // The next eight bits as a byte, on no particular boundary.
    method GetUnalignedByte() returns (r: Option<Byte>)
      requires Valid()
      modifies this
      ensures Valid()
      ensures r.None? <==> old(Position()) + 8 > 8 * |input|
      ensures r.Some? ==>
        r.value == Value(input, old(Position()), old(Position()) + 8) && Position() == old(Position()) + 8
      ensures r.None? ==> Position() == old(Position())
    {
      hide Window, Value, MergeIn;
      ghost var p := Position();
      if bits < 8 {
        var c := GetCharRaw();
        if c.None? {
          return None;
        }
        ByteIn(input, taken - 1, bits, buff);
        buff := MergeIn(buff, c.value, bits);
      } else {
        assert false;
      }
      ByteOut(input, p, 8 * taken, buff);
      var t := (buff / 256) % 256;
      buff := (256 * buff) % 0x1_0000_0000;
      r := Some(t);
    }
  }
}

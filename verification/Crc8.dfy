/** The CRC-8 of the TMC2209 UART (components/infrastructure/src/drivers/tmc_uart.cpp),
    proved to be the remainder of polynomial division by x^8 + x^2 + x + 1 over GF(2).

    Bit sequences are written highest power first, the order in which the loop reads them.
    The loop works on bv8; everything about its algebra is proved on sequences of bits. */
module Crc8 {

  type Byte = bv8
  type Bits = seq<bool>
  type Octet = b: Bits | |b| == 8 witness ZeroOctet

  const ZeroOctet: Bits := [false, false, false, false, false, false, false, false]

  // ---- The loop of the driver ----------------------------------------------

  function ShiftOnce(crc: Byte): Byte {
    if crc & 0x80 != 0 then (crc << 1) ^ 0x07 else crc << 1
  }

  function ShiftTimes(crc: Byte, n: nat): Byte {
    if n == 0 then crc else ShiftOnce(ShiftTimes(crc, n - 1))
  }

  function Crc(data: seq<Byte>): Byte {
    if data == [] then 0 else ShiftTimes(Crc(data[..|data| - 1]) ^ data[|data| - 1], 8)
  }

  method ComputeCrc(data: array<Byte>, len: nat) returns (crc: Byte)
    requires len <= data.Length
    ensures crc == Crc(data[..len])
  {
    crc := 0;
    for i := 0 to len
      invariant crc == Crc(data[..i])
    {
      ghost var before := crc ^ data[i];
      crc := crc ^ data[i];
      for j := 0 to 8
        invariant crc == ShiftTimes(before, j)
      {
        if crc & 0x80 != 0 {
          crc := (crc << 1) ^ 0x07;
        } else {
          crc := crc << 1;
        }
      }
      assert data[..i + 1][..i] == data[..i];
    }
  }

  // ---- The bits of bytes ---------------------------------------------------

  predicate BitAt(b: Byte, k: nat)
    requires k < 8
  {
    match k
    case 0 => b & 0x80 != 0
    case 1 => b & 0x40 != 0
    case 2 => b & 0x20 != 0
    case 3 => b & 0x10 != 0
    case 4 => b & 0x08 != 0
    case 5 => b & 0x04 != 0
    case 6 => b & 0x02 != 0
    case 7 => b & 0x01 != 0
  }

  function ByteBits(b: Byte): (bits: Octet) {
    seq(8, k requires 0 <= k < 8 => BitAt(b, k))
  }

  function BitsOf(data: seq<Byte>): (bits: Bits)
    ensures |bits| == 8 * |data|
  {
    if data == [] then [] else BitsOf(data[..|data| - 1]) + ByteBits(data[|data| - 1])
  }

  function Xor(a: Bits, b: Bits): (c: Bits)
    requires |a| == |b|
    ensures |c| == |a|
  {
    seq(|a|, i requires 0 <= i < |a| => a[i] != b[i])
  }

  function XorBytes(a: seq<Byte>, b: seq<Byte>): (c: seq<Byte>)
    requires |a| == |b|
    ensures |c| == |a|
  {
    seq(|a|, i requires 0 <= i < |a| => a[i] ^ b[i])
  }

  lemma Masks(b: Byte)
    ensures BitAt(b, 0) <==> b & 0x80 != 0
    ensures BitAt(b, 1) <==> b & 0x40 != 0
    ensures BitAt(b, 2) <==> b & 0x20 != 0
    ensures BitAt(b, 3) <==> b & 0x10 != 0
    ensures BitAt(b, 4) <==> b & 0x08 != 0
    ensures BitAt(b, 5) <==> b & 0x04 != 0
    ensures BitAt(b, 6) <==> b & 0x02 != 0
    ensures BitAt(b, 7) <==> b & 0x01 != 0
  {
  }

  lemma MasksOfXor(a: Byte, b: Byte)
    ensures (a ^ b) & 0x80 != 0 <==> (a & 0x80 != 0) != (b & 0x80 != 0)
    ensures (a ^ b) & 0x40 != 0 <==> (a & 0x40 != 0) != (b & 0x40 != 0)
    ensures (a ^ b) & 0x20 != 0 <==> (a & 0x20 != 0) != (b & 0x20 != 0)
    ensures (a ^ b) & 0x10 != 0 <==> (a & 0x10 != 0) != (b & 0x10 != 0)
    ensures (a ^ b) & 0x08 != 0 <==> (a & 0x08 != 0) != (b & 0x08 != 0)
    ensures (a ^ b) & 0x04 != 0 <==> (a & 0x04 != 0) != (b & 0x04 != 0)
    ensures (a ^ b) & 0x02 != 0 <==> (a & 0x02 != 0) != (b & 0x02 != 0)
    ensures (a ^ b) & 0x01 != 0 <==> (a & 0x01 != 0) != (b & 0x01 != 0)
  {
  }

  lemma MasksDetermine(a: Byte, b: Byte)
    requires a & 0x80 != 0 <==> b & 0x80 != 0
    requires a & 0x40 != 0 <==> b & 0x40 != 0
    requires a & 0x20 != 0 <==> b & 0x20 != 0
    requires a & 0x10 != 0 <==> b & 0x10 != 0
    requires a & 0x08 != 0 <==> b & 0x08 != 0
    requires a & 0x04 != 0 <==> b & 0x04 != 0
    requires a & 0x02 != 0 <==> b & 0x02 != 0
    requires a & 0x01 != 0 <==> b & 0x01 != 0
    ensures a == b
  {
  }

  lemma BitAtXor(a: Byte, b: Byte, k: nat)
    requires k < 8
    ensures BitAt(a ^ b, k) == (BitAt(a, k) != BitAt(b, k))
  {
    hide BitAt;
    EachBitOfXor(a, b, a ^ b);
  }

  lemma EachBitOfXor(a: Byte, b: Byte, c: Byte)
    requires c == a ^ b
    ensures BitAt(c, 0) == (BitAt(a, 0) != BitAt(b, 0)) && BitAt(c, 1) == (BitAt(a, 1) != BitAt(b, 1))
    ensures BitAt(c, 2) == (BitAt(a, 2) != BitAt(b, 2)) && BitAt(c, 3) == (BitAt(a, 3) != BitAt(b, 3))
    ensures BitAt(c, 4) == (BitAt(a, 4) != BitAt(b, 4)) && BitAt(c, 5) == (BitAt(a, 5) != BitAt(b, 5))
    ensures BitAt(c, 6) == (BitAt(a, 6) != BitAt(b, 6)) && BitAt(c, 7) == (BitAt(a, 7) != BitAt(b, 7))
  {
    hide BitAt;
    Masks(a);
    Masks(b);
    Masks(c);
    MasksOfXor(a, b);
  }

  lemma ByteBitsXor(a: Byte, b: Byte)
    ensures ByteBits(a ^ b) == Xor(ByteBits(a), ByteBits(b))
  {
    forall k | 0 <= k < 8
      ensures ByteBits(a ^ b)[k] == Xor(ByteBits(a), ByteBits(b))[k]
    {
      BitAtXor(a, b, k);
    }
  }

  lemma ByteBitsInjective(a: Byte, b: Byte)
    requires ByteBits(a) == ByteBits(b)
    ensures a == b
  {
    var x, y := ByteBits(a), ByteBits(b);
    assert x[0] == y[0] && x[1] == y[1] && x[2] == y[2] && x[3] == y[3];
    assert x[4] == y[4] && x[5] == y[5] && x[6] == y[6] && x[7] == y[7];
    MasksDetermine(a, b);
  }

  lemma XorFromBits(a: Byte, b: Byte, c: Byte)
    requires ByteBits(c) == Xor(ByteBits(a), ByteBits(b))
    ensures c == a ^ b
  {
    ByteBitsXor(a, b);
    ByteBitsInjective(c, a ^ b);
  }

  lemma BitsOfAppend(data: seq<Byte>, b: Byte)
    ensures BitsOf(data + [b]) == BitsOf(data) + ByteBits(b)
  {
    assert (data + [b])[..|data|] == data;
  }

  lemma XorConcat(a: Bits, b: Bits, c: Bits, d: Bits)
    requires |a| == |b| && |c| == |d|
    ensures Xor(a + c, b + d) == Xor(a, b) + Xor(c, d)
  {
  }

  lemma XorBytesAppend(a: seq<Byte>, b: seq<Byte>, n: nat)
    requires |a| == |b| == n + 1
    ensures XorBytes(a, b) == XorBytes(a[..n], b[..n]) + [a[n] ^ b[n]]
  {
  }

  lemma {:induction false} BitsOfXor(a: seq<Byte>, b: seq<Byte>)
    requires |a| == |b|
    ensures BitsOf(XorBytes(a, b)) == Xor(BitsOf(a), BitsOf(b))
  {
    if a == [] {
    } else {
      var n := |a| - 1;
      BitsOfXor(a[..n], b[..n]);
      XorBytesAppend(a, b, n);
      BitsOfAppend(XorBytes(a[..n], b[..n]), a[n] ^ b[n]);
      ByteBitsXor(a[n], b[n]);
      XorConcat(BitsOf(a[..n]), BitsOf(b[..n]), ByteBits(a[n]), ByteBits(b[n]));
    }
  }

  // ---- The shift register --------------------------------------------------

  /** The powers of x^8 + x^2 + x + 1, counted down from the highest. */
  predicate DivisorTerm(k: int) {
    k == 0 || k == 6 || k == 7 || k == 8
  }

  function Step(r: Octet, bit: bool): Octet {
    seq(8, k requires 0 <= k < 8 => (k < 7 && r[k + 1]) != ((r[0] != bit) && DivisorTerm(k + 1)))
  }

  function Feed(r: Octet, bits: Bits): Octet {
    if bits == [] then r else Step(Feed(r, bits[..|bits| - 1]), bits[|bits| - 1])
  }

  /** The shift register after a bit sequence, starting from zero. */
  function Register(bits: Bits): Octet {
    Feed(ZeroOctet, bits)
  }

  lemma {:induction false} FeedConcat(r: Octet, a: Bits, b: Bits)
    ensures Feed(r, a + b) == Feed(Feed(r, a), b)
  {
    if b == [] {
      assert a + b == a;
    } else {
      var n := |b| - 1;
      FeedConcat(r, a, b[..n]);
      assert (a + b)[..|a + b| - 1] == a + b[..n];
    }
  }

  lemma FeedOne(r: Octet, bits: Bits, bit: bool)
    ensures Feed(r, bits + [bit]) == Step(Feed(r, bits), bit)
  {
    assert (bits + [bit])[..|bits|] == bits;
  }

  lemma MasksOfShift(x: Byte)
    ensures var y := if x & 0x80 != 0 then (x << 1) ^ 0x07 else x << 1;
            && (y & 0x80 != 0) == (x & 0x40 != 0) && (y & 0x40 != 0) == (x & 0x20 != 0)
            && (y & 0x20 != 0) == (x & 0x10 != 0) && (y & 0x10 != 0) == (x & 0x08 != 0)
            && (y & 0x08 != 0) == (x & 0x04 != 0) && (y & 0x04 != 0) == ((x & 0x02 != 0) != (x & 0x80 != 0))
            && (y & 0x02 != 0) == ((x & 0x01 != 0) != (x & 0x80 != 0)) && (y & 0x01 != 0) == (x & 0x80 != 0)
  {
  }

  lemma ShiftOnceIsStep(x: Byte)
    ensures ByteBits(ShiftOnce(x)) == Step(ByteBits(x), false)
  {
    hide BitAt;
    var y := ShiftOnce(x);
    MasksOfShift(x);
    Masks(x);
    Masks(y);
    forall k | 0 <= k < 8
      ensures BitAt(y, k) == ((k < 7 && BitAt(x, k + 1)) != (BitAt(x, 0) && DivisorTerm(k + 1)))
    {
    }
  }

  function Zeros(n: nat): (bits: Bits)
    ensures |bits| == n && forall i :: 0 <= i < n ==> !bits[i]
  {
    seq(n, i => false)
  }

  lemma AddThenStep(r: Octet, c: Octet)
    ensures Step(Xor(r, c), false) == Xor(Step(r, c[0]), c[1..] + [false])
  {
  }

  /** Adding an octet at once and then shifting is feeding its bits one by one. */
  lemma {:induction false} AddThenShift(r: Octet, w: Octet, k: nat)
    requires k <= 8
    ensures Feed(Xor(r, w), Zeros(k)) == Xor(Feed(r, w[..k]), w[k..] + Zeros(k))
  {
    if k == 0 {
      assert w[0..] + Zeros(0) == w;
    } else {
      hide Step, Xor, Feed;
      AddThenShift(r, w, k - 1);
      var c := w[k - 1..] + Zeros(k - 1);
      AddThenStep(Feed(r, w[..k - 1]), c);
      assert c[0] == w[k - 1] && c[1..] + [false] == w[k..] + Zeros(k);
      assert Zeros(k) == Zeros(k - 1) + [false] && w[..k] == w[..k - 1] + [w[k - 1]];
      FeedOne(Xor(r, w), Zeros(k - 1), false);
      FeedOne(r, w[..k - 1], w[k - 1]);
    }
  }

  lemma {:induction false} ShiftTimesIsFeed(x: Byte, n: nat)
    ensures ByteBits(ShiftTimes(x, n)) == Feed(ByteBits(x), Zeros(n))
  {
    if n > 0 {
      ShiftTimesIsFeed(x, n - 1);
      ShiftOnceIsStep(ShiftTimes(x, n - 1));
      assert Zeros(n)[..n - 1] == Zeros(n - 1);
    }
  }

  lemma ByteStep(crc: Byte, b: Byte)
    ensures ByteBits(ShiftTimes(crc ^ b, 8)) == Feed(ByteBits(crc), ByteBits(b))
  {
    ShiftTimesIsFeed(crc ^ b, 8);
    ByteBitsXor(crc, b);
    var r, w := ByteBits(crc), ByteBits(b);
    AddThenShift(r, w, 8);
    assert w[..8] == w && w[8..] + Zeros(8) == Zeros(8);
    assert Xor(Feed(r, w), Zeros(8)) == Feed(r, w);
  }

  /** The byte-wise loop computes what the bit-serial register holds. */
  lemma {:induction false} CrcIsRegister(data: seq<Byte>)
    ensures ByteBits(Crc(data)) == Register(BitsOf(data))
  {
    if data == [] {
    } else {
      var n := |data| - 1;
      CrcIsRegister(data[..n]);
      ByteStep(Crc(data[..n]), data[n]);
      FeedConcat(ZeroOctet, BitsOf(data[..n]), ByteBits(data[n]));
    }
  }

  // ---- Division by x^8 + x^2 + x + 1 ---------------------------------------

  predicate Coefficient(q: Bits, i: int) {
    0 <= i < |q| && q[i]
  }

  /** One coefficient of a product with x^8 + x^2 + x + 1: four shifted copies, added. */
  predicate ProductBit(q: Bits, i: int) {
    (Coefficient(q, i) != Coefficient(q, i - 6)) != (Coefficient(q, i - 7) != Coefficient(q, i - 8))
  }

  function TimesDivisor(q: Bits): (product: Bits)
    ensures |product| == |q| + 8
  {
    seq(|q| + 8, i => ProductBit(q, i))
  }

  ghost predicate Divisible(bits: Bits) {
    exists q :: TimesDivisor(q) == bits
  }

  lemma CoefficientAppend(q: Bits, t: bool, k: int)
    ensures Coefficient(q + [t], k) == (Coefficient(q, k) != (k == |q| && t))
  {
  }

  lemma ProductBitAppend(q: Bits, t: bool, i: int)
    ensures ProductBit(q + [t], i) == (ProductBit(q, i) != (t && DivisorTerm(i - |q|)))
  {
    CoefficientAppend(q, t, i);
    CoefficientAppend(q, t, i - 6);
    CoefficientAppend(q, t, i - 7);
    CoefficientAppend(q, t, i - 8);
  }

  lemma ProductAppend(q: Bits, t: bool, i: nat)
    requires i < |q| + 9
    ensures TimesDivisor(q + [t])[i] == ((i < |q| + 8 && TimesDivisor(q)[i]) != (t && DivisorTerm(i - |q|)))
  {
    ProductBitAppend(q, t, i);
    assert i == |q| + 8 ==> !ProductBit(q, i);
  }

  /** One step of schoolbook division. */
  lemma DivisionStep(q: Bits, m: Bits, bit: bool)
    requires |q| == |m| && TimesDivisor(q) == m + Register(m)
    ensures TimesDivisor(q + [Register(m)[0] != bit]) == (m + [bit]) + Register(m + [bit])
  {
    FeedOne(ZeroOctet, m, bit);
    var product := TimesDivisor(q + [Register(m)[0] != bit]);
    forall i | 0 <= i < |product|
      ensures product[i] == ((m + [bit]) + Register(m + [bit]))[i]
    {
      ProductAppend(q, Register(m)[0] != bit, i);
    }
  }

  function Quotient(m: Bits): (q: Bits)
    ensures |q| == |m|
  {
    if m == [] then [] else Quotient(m[..|m| - 1]) + [Register(m[..|m| - 1])[0] != m[|m| - 1]]
  }

  lemma {:induction false} DivisionIsExact(m: Bits)
    ensures TimesDivisor(Quotient(m)) == m + Register(m)
  {
    if m == [] {
    } else {
      var rest := m[..|m| - 1];
      DivisionIsExact(rest);
      DivisionStep(Quotient(rest), rest, m[|m| - 1]);
      assert rest + [m[|m| - 1]] == m;
    }
  }

  lemma {:induction false} QuotientIsUnique(m: Bits, q: Bits, r: Octet)
    requires |q| == |m| && TimesDivisor(q) == m + r
    ensures q == Quotient(m)
  {
    if m == [] {
    } else {
      var n := |m| - 1;
      var rest, t := q[..n], q[n];
      assert q == rest + [t];
      forall i | 0 <= i < n
        ensures TimesDivisor(rest)[i] == m[i]
      {
        ProductAppend(rest, t, i);
      }
      var tail := TimesDivisor(rest)[n..];
      assert TimesDivisor(rest) == m[..n] + tail;
      QuotientIsUnique(m[..n], rest, tail);
      DivisionIsExact(m[..n]);
      ProductAppend(rest, t, n);
    }
  }

  /** The register holds the remainder of m(x) * x^8: it is the only octet that, appended
      to the message, makes the whole divisible by x^8 + x^2 + x + 1. */
  lemma RegisterIsRemainder(m: Bits, r: Octet)
    ensures Divisible(m + r) <==> r == Register(m)
  {
    DivisionIsExact(m);
    if Divisible(m + r) {
      var q :| TimesDivisor(q) == m + r;
      QuotientIsUnique(m, q, r);
      assert r == (m + r)[|m|..];
    }
  }

  lemma CrcIsRemainder(data: seq<Byte>, r: Byte)
    ensures Divisible(BitsOf(data + [r])) <==> r == Crc(data)
  {
    assert (data + [r])[..|data|] == data;
    CrcIsRegister(data);
    RegisterIsRemainder(BitsOf(data), ByteBits(r));
    if ByteBits(r) == ByteBits(Crc(data)) {
      ByteBitsInjective(r, Crc(data));
    }
  }

  // ---- Linearity -----------------------------------------------------------

  lemma StepLinear(x: Octet, y: Octet, a: bool, b: bool)
    ensures Step(Xor(x, y), a != b) == Xor(Step(x, a), Step(y, b))
  {
  }

  lemma {:induction false} RegisterLinear(a: Bits, b: Bits)
    requires |a| == |b|
    ensures Register(Xor(a, b)) == Xor(Register(a), Register(b))
  {
    if a == [] {
    } else {
      var n := |a| - 1;
      RegisterLinear(a[..n], b[..n]);
      assert Xor(a, b)[..n] == Xor(a[..n], b[..n]);
      StepLinear(Register(a[..n]), Register(b[..n]), a[n], b[n]);
    }
  }

  lemma CrcBitsLinear(a: seq<Byte>, b: seq<Byte>)
    requires |a| == |b|
    ensures ByteBits(Crc(XorBytes(a, b))) == Xor(ByteBits(Crc(a)), Register(BitsOf(b)))
    ensures ByteBits(Crc(XorBytes(a, b))) == Xor(ByteBits(Crc(a)), ByteBits(Crc(b)))
  {
    CrcIsRegister(a);
    CrcIsRegister(b);
    CrcIsRegister(XorBytes(a, b));
    BitsOfXor(a, b);
    RegisterLinear(BitsOf(a), BitsOf(b));
  }

  /** The CRC of a sum is the sum of the CRCs, for messages of equal length. */
  lemma CrcLinear(a: seq<Byte>, b: seq<Byte>)
    requires |a| == |b|
    ensures Crc(XorBytes(a, b)) == Crc(a) ^ Crc(b)
  {
    CrcBitsLinear(a, b);
    XorFromBits(Crc(a), Crc(b), Crc(XorBytes(a, b)));
  }

  // ---- Error detection -----------------------------------------------------

  function Parity(bits: Bits): bool {
    if bits == [] then false else Parity(bits[..|bits| - 1]) != bits[|bits| - 1]
  }

  function OctetParity(b: Octet): bool {
    ((b[0] != b[1]) != (b[2] != b[3])) != ((b[4] != b[5]) != (b[6] != b[7]))
  }

  lemma StepParity(r: Octet, bit: bool)
    ensures OctetParity(Step(r, bit)) == (OctetParity(r) != bit)
  {
  }

  /** x + 1 divides the generator, so the register has the parity of the message. */
  lemma {:induction false} RegisterParity(bits: Bits)
    ensures OctetParity(Register(bits)) == Parity(bits)
  {
    if bits == [] {
    } else {
      RegisterParity(bits[..|bits| - 1]);
      StepParity(Register(bits[..|bits| - 1]), bits[|bits| - 1]);
    }
  }

  lemma OddErrorIsSeen(e: Bits)
    requires Parity(e)
    ensures Register(e) != ZeroOctet
  {
    RegisterParity(e);
  }

  /** A nonzero error confined to eight consecutive bits. */
  ghost predicate Burst(e: Bits, p: nat) {
    && p + 8 <= |e|
    && (forall i :: 0 <= i < |e| && e[i] ==> p <= i < p + 8)
    && (exists i :: 0 <= i < |e| && e[i])
  }

  lemma {:induction false} ZerosFromZero(bits: Bits)
    requires forall i :: 0 <= i < |bits| ==> !bits[i]
    ensures Register(bits) == ZeroOctet
  {
    if bits == [] {
    } else {
      ZerosFromZero(bits[..|bits| - 1]);
    }
  }

  lemma StepIsInvertible(r: Octet, k: nat)
    requires k < 8 && r[k]
    ensures Step(r, false) != ZeroOctet
  {
    if r[0] {
      assert Step(r, false)[7];
    } else {
      assert Step(r, false)[k - 1];
    }
  }

  lemma {:induction false} ShiftsKeepNonzero(r: Octet, bits: Bits)
    requires r != ZeroOctet && forall i :: 0 <= i < |bits| ==> !bits[i]
    ensures Feed(r, bits) != ZeroOctet
  {
    if bits == [] {
    } else {
      var before := Feed(r, bits[..|bits| - 1]);
      ShiftsKeepNonzero(r, bits[..|bits| - 1]);
      var k :| 0 <= k < 8 && before[k] != ZeroOctet[k];
      StepIsInvertible(before, k);
    }
  }

  lemma OctetIsSeen(w: Octet, k: nat)
    requires k < 8 && w[k]
    ensures Register(w) != ZeroOctet
  {
    AddThenShift(ZeroOctet, w, 8);
    assert Xor(ZeroOctet, w) == w && w[..8] == w && w[8..] + Zeros(8) == Zeros(8);
    assert Xor(Feed(ZeroOctet, w), Zeros(8)) == Feed(ZeroOctet, w);
    assert !ZeroOctet[k];
    ShiftsKeepNonzero(w, Zeros(8));
  }

  lemma BurstIsSeen(e: Bits, p: nat)
    requires Burst(e, p)
    ensures Register(e) != ZeroOctet
  {
    hide Feed;
    var before, w: Octet, after := e[..p], e[p..p + 8], e[p + 8..];
    assert e == before + w + after;
    FeedConcat(ZeroOctet, before + w, after);
    FeedConcat(ZeroOctet, before, w);
    ZerosFromZero(before);
    var i :| 0 <= i < |e| && e[i];
    OctetIsSeen(w, i - p);
    hide Register;
    ShiftsKeepNonzero(Register(w), after);
  }

  /** An odd number of flipped bits, or a burst of at most eight. */
  ghost predicate Detectable(e: Bits) {
    Parity(e) || exists p :: Burst(e, p)
  }

  lemma DetectableIsSeen(e: Bits)
    requires Detectable(e)
    ensures Register(e) != ZeroOctet
  {
    if Parity(e) {
      OddErrorIsSeen(e);
    } else {
      var p :| Burst(e, p);
      BurstIsSeen(e, p);
    }
  }

  /** Whatever the length of the message, detectable errors change its CRC. */
  lemma CrcDetectsErrors(data: seq<Byte>, e: seq<Byte>)
    requires |e| == |data| && Detectable(BitsOf(e))
    ensures Crc(XorBytes(data, e)) != Crc(data)
  {
    CrcBitsLinear(data, e);
    DetectableIsSeen(BitsOf(e));
    var k :| 0 <= k < 8 && Register(BitsOf(e))[k] != ZeroOctet[k];
    assert ByteBits(Crc(XorBytes(data, e)))[k] != ByteBits(Crc(data))[k];
  }
}

/** CRC-16/XMODEM: the shift-and-xor loop, and the proof that it computes a
    polynomial remainder (src/elk_programmer/protocol/framing.py, `crc16`).
    The 16-bit register is a `bv16`, so the source's `& 0xFFFF` is the type. */
module Crc {
  import opened Bytes
  import opened Polynomial

  function ShiftStep(crc: bv16): bv16 {
    if crc & 0x8000 != 0 then (crc << 1) ^ 0x1021 else crc << 1
  }

  function ShiftSteps(crc: bv16, n: nat): bv16
    decreases n
  {
    if n == 0 then crc else ShiftSteps(ShiftStep(crc), n - 1)
  }

  function ByteStep(crc: bv16, b: byte): bv16 {
    ShiftSteps(crc ^ ((b as bv16) << 8), 8)
  }

  function Crc16(data: seq<byte>, crc: bv16): bv16 {
    if data == [] then crc else Crc16(data[1..], ByteStep(crc, data[0]))
  }

  /** The two bytes a frame carries its CRC in. */
  function HighByte(c: bv16): byte { (c >> 8) as byte }

  function LowByte(c: bv16): byte { (c & 0xFF) as byte }

  /** The source's two nested loops. */
  method ComputeCrc16(data: seq<byte>, initial: bv16) returns (crc: bv16)
    ensures crc == Crc16(data, initial)
  {
    crc := initial;
    for i := 0 to |data|
      invariant Crc16(data[i..], crc) == Crc16(data, initial)
    {
      ghost var before := crc;
      crc := crc ^ ((data[i] as bv16) << 8);
      ghost var mixed := crc;
      for k := 0 to 8
        invariant ShiftSteps(crc, 8 - k) == ShiftSteps(mixed, 8)
      {
        crc := if crc & 0x8000 != 0 then (crc << 1) ^ 0x1021 else crc << 1;
      }
      assert crc == ByteStep(before, data[i]);
      assert data[i..][1..] == data[i + 1..];
    }
  }

  // ---- The register as a polynomial ----

  function Mask(i: nat): bv16
    requires i < 16
  {
    if i == 0 then 1 else Mask(i - 1) << 1
  }

  predicate Bit(c: bv16, i: nat)
    requires i < 16
  {
    c & Mask(i) != 0
  }

  function Bits(c: bv16): (p: Poly)
    ensures forall e: nat {:trigger e in p} :: e in p <==> e < 16 && Bit(c, e)
  {
    set i: nat | i < 16 && Bit(c, i)
  }

  lemma MaskFacts(i: nat)
    requires i < 16
    ensures Mask(i) != 0 && Mask(i) & (Mask(i) - 1) == 0
    ensures 0x1021 & Mask(i) != 0 <==> i in {12, 5, 0}
    ensures i >= 8 ==> Mask(i) & 0xFF == 0
    ensures i < 15 ==> Mask(i) & 0x7FFF != 0
  {
    assert Mask(3) == 0x8 && Mask(6) == 0x40;
    assert Mask(9) == 0x200 && Mask(12) == 0x1000 && Mask(15) == 0x8000;
    if i < 4 {
      assert i == 0 || i == 1 || i == 2 || i == 3;
    } else if i < 8 {
      assert i == 4 || i == 5 || i == 6 || i == 7;
    } else if i < 12 {
      assert i == 8 || i == 9 || i == 10 || i == 11;
    } else {
      assert i == 12 || i == 13 || i == 14 || i == 15;
    }
  }

  lemma SingleBit(a: bv16, m: bv16)
    requires m & (m - 1) == 0
    ensures a & m == 0 || a & m == m
  {}

  lemma XorMask(a: bv16, b: bv16, m: bv16)
    ensures (a ^ b) & m == (a & m) ^ (b & m)
  {}

  lemma ShlMask(a: bv16, m: bv16)
    requires m & (m - 1) == 0 && m & 0x7FFF != 0
    ensures (a << 1) & (m << 1) != 0 <==> a & m != 0
  {}

  lemma XorBit(a: bv16, b: bv16, i: nat)
    requires i < 16
    ensures Bit(a ^ b, i) <==> Bit(a, i) != Bit(b, i)
  {
    MaskFacts(i);
    XorMask(a, b, Mask(i));
    SingleBit(a, Mask(i));
    SingleBit(b, Mask(i));
  }

  lemma ShlLowBit(a: bv16)
    ensures !Bit(a << 1, 0)
  {
    assert (a << 1) & 1 == 0;
  }

  lemma MaskNext(i: nat)
    requires i < 15
    ensures Mask(i + 1) == Mask(i) << 1
  {}

  lemma ShlBit(a: bv16, i: nat)
    requires i < 15
    ensures Bit(a << 1, i + 1) <==> Bit(a, i)
  {
    MaskFacts(i);
    MaskNext(i);
    ShlMask(a, Mask(i));
  }

  lemma BitsXor(a: bv16, b: bv16)
    ensures Bits(a ^ b) == Add(Bits(a), Bits(b))
  {
    forall e: nat ensures e in Bits(a ^ b) <==> e in Add(Bits(a), Bits(b)) {
      if e < 16 { XorBit(a, b, e); }
    }
  }

  lemma BitsShl(a: bv16)
    ensures Bits(a << 1) == Shift(Bits(a), 1) - {16}
  {
    forall e: nat ensures e in Bits(a << 1) <==> e in Shift(Bits(a), 1) - {16} {
      if e == 0 {
        ShlLowBit(a);
      } else if e < 16 {
        ShlBit(a, e - 1);
      }
    }
  }

  lemma TopMask()
    ensures Mask(15) == 0x8000
  {
    assert Mask(12) == 0x1000;
  }

  lemma TopBit(a: bv16)
    ensures Bit(a, 15) <==> a & 0x8000 != 0
  {
    TopMask();
  }

  // ---- One shift is one multiplication by x, modulo the generator ----

  lemma GeneratorBits()
    ensures Bits(0x1021) == {12, 5, 0}
  {
    forall e: nat ensures e in Bits(0x1021) <==> e in {12, 5, 0} {
      if e < 16 { MaskFacts(e); }
    }
  }

  /** Dropping x^16 and adding x^12 + x^5 + 1 is adding the generator. */
  lemma ReduceTop(p: Poly)
    requires 16 in p
    ensures Congruent(Add(p - {16}, {12, 5, 0}), p)
  {
    assert Shift({0}, 16) == {16} && Shift({0}, 12) == {12} && Shift({0}, 5) == {5};
    assert MulG({0}) == GENERATOR;
    assert Add(p - {16}, {12, 5, 0}) == Add(p, MulG({0}));
  }

  lemma ShiftStepCongruent(c: bv16)
    ensures Congruent(Bits(ShiftStep(c)), Shift(Bits(c), 1))
  {
    var p := Shift(Bits(c), 1);
    TopBit(c);
    BitsShl(c);
    if c & 0x8000 == 0 {
      assert Bits(c << 1) == p;
      CongruentRefl(p);
    } else {
      BitsXor(c << 1, 0x1021);
      GeneratorBits();
      ReduceTop(p);
    }
  }

  lemma {:induction false} ShiftStepsCongruent(c: bv16, n: nat)
    ensures Congruent(Bits(ShiftSteps(c, n)), Shift(Bits(c), n))
    decreases n
  {
    if n == 0 {
      assert Shift(Bits(c), 0) == Bits(c);
      CongruentRefl(Bits(c));
    } else {
      var d := ShiftStep(c);
      ShiftStepsCongruent(d, n - 1);
      ShiftStepCongruent(c);
      CongruentShift(Bits(d), Shift(Bits(c), 1), n - 1);
      ShiftedOnceMore(Bits(c), n);
      CongruentTrans(Bits(ShiftSteps(d, n - 1)), Shift(Bits(d), n - 1), Shift(Bits(c), n));
    }
  }

  lemma ShiftedOnceMore(p: Poly, n: nat)
    requires n > 0
    ensures Shift(Shift(p, 1), n - 1) == Shift(p, n)
  {
    ShiftShift(p, 1, n - 1);
    assert 1 + (n - 1) == n;
  }

  /** The polynomial of one byte, most significant bit at x^7. */
  function ByteBits(b: byte): Poly {
    Bits(b as bv16)
  }

  lemma HighByteClear(b: byte, m: bv16)
    requires m & 0xFF == 0
    ensures (b as bv16) & m == 0
  {}

  lemma HighBitClear(b: byte, i: nat)
    requires 8 <= i < 16
    ensures !Bit(b as bv16, i)
  {
    MaskFacts(i);
    HighByteClear(b, Mask(i));
  }

  lemma ByteBitsSmall(b: byte)
    ensures forall e: nat | e in ByteBits(b) :: e < 8
  {
    forall e: nat ensures e in ByteBits(b) ==> e < 8 {
      if 8 <= e < 16 { HighBitClear(b, e); }
    }
  }

  lemma ShlEightMask(b: byte, m: bv16)
    ensures m & 0xFF00 == 0 ==> ((b as bv16) << 8) & m == 0
    ensures m & 0xFF00 == 0 ==> (((b as bv16) << 8) & (m << 8) != 0 <==> (b as bv16) & m != 0)
  {}

  lemma MaskHigh(i: nat)
    requires i < 8
    ensures Mask(i + 8) == Mask(i) << 8 && Mask(i) & 0xFF00 == 0
  {
    assert Mask(3) == 0x8 && Mask(6) == 0x40;
    assert Mask(9) == 0x200 && Mask(12) == 0x1000 && Mask(15) == 0x8000;
    if i < 4 {
      assert i == 0 || i == 1 || i == 2 || i == 3;
    } else {
      assert i == 4 || i == 5 || i == 6 || i == 7;
    }
  }

  lemma HighByteBit(b: byte, i: nat)
    requires i < 8
    ensures !Bit((b as bv16) << 8, i)
    ensures Bit((b as bv16) << 8, i + 8) <==> Bit(b as bv16, i)
  {
    MaskHigh(i);
    ShlEightMask(b, Mask(i));
  }

  lemma HighByteBits(b: byte)
    ensures Bits((b as bv16) << 8) == Shift(ByteBits(b), 8)
  {
    ByteBitsSmall(b);
    forall e: nat ensures e in Bits((b as bv16) << 8) <==> e in Shift(ByteBits(b), 8) {
      if e < 8 {
        HighByteBit(b, e);
      } else if e < 16 {
        HighByteBit(b, e - 8);
      }
    }
  }

  lemma ByteStepCongruent(c: bv16, b: byte)
    ensures Congruent(Bits(ByteStep(c, b)), Add(Shift(Bits(c), 8), Shift(ByteBits(b), 16)))
  {
    var high := (b as bv16) << 8;
    var p, q := Bits(c), ByteBits(b);
    assert Congruent(Bits(ByteStep(c, b)), Shift(Bits(c ^ high), 8)) by {
      ShiftStepsCongruent(c ^ high, 8);
    }
    assert Bits(c ^ high) == Add(p, Shift(q, 8)) by {
      BitsXor(c, high);
      HighByteBits(b);
    }
    ShiftAdd(p, Shift(q, 8), 8);
    ShiftShift(q, 8, 8);
  }

  // ---- The CRC of a message is a remainder ----

  /** The message as a polynomial: bytes in order, each most significant bit first. */
  function Message(data: seq<byte>): Poly {
    if data == [] then {} else Add(Shift(ByteBits(data[0]), 8 * (|data| - 1)), Message(data[1..]))
  }

  /** What the CRC divides: the message times x^16, plus the register it continues from. */
  function Dividend(data: seq<byte>, crc: bv16): Poly {
    Add(Shift(Message(data), 16), Shift(Bits(crc), 8 * |data|))
  }

  lemma {:induction false} CrcCongruent(data: seq<byte>, crc: bv16)
    ensures Congruent(Bits(Crc16(data, crc)), Dividend(data, crc))
    decreases |data|
  {
    if data == [] {
      assert Shift(Bits(crc), 0) == Bits(crc);
      assert Dividend(data, crc) == Bits(crc);
      CongruentRefl(Bits(crc));
    } else {
      var d := ByteStep(crc, data[0]);
      CrcCongruent(data[1..], d);
      DividendStep(data, crc, d);
      CongruentTrans(Bits(Crc16(data, crc)), Dividend(data[1..], d), Dividend(data, crc));
    }
  }

  lemma DividendStep(data: seq<byte>, crc: bv16, d: bv16)
    requires data != [] && d == ByteStep(crc, data[0])
    ensures Congruent(Dividend(data[1..], d), Dividend(data, crc))
  {
    var p, q, r, m := Bits(crc), ByteBits(data[0]), Bits(d), Message(data[1..]);
    assert Congruent(r, Add(Shift(p, 8), Shift(q, 16))) by {
      ByteStepCongruent(crc, data[0]);
    }
    CarryCongruence(p, q, r, m, 8 * (|data| - 1));
  }

  lemma CarryCongruence(p: Poly, q: Poly, r: Poly, m: Poly, n: nat)
    requires Congruent(r, Add(Shift(p, 8), Shift(q, 16)))
    ensures Congruent(Add(Shift(m, 16), Shift(r, n)), Add(Shift(Add(Shift(q, n), m), 16), Shift(p, n + 8)))
  {
    var stepped := Add(Shift(p, 8), Shift(q, 16));
    CongruentShift(r, stepped, n);
    CongruentAdd(Shift(r, n), Shift(stepped, n), Shift(m, 16));
    AddComm(Shift(r, n), Shift(m, 16));
    Regroup(p, q, m, n);
  }

  lemma AddComm(x: Poly, y: Poly)
    ensures Add(x, y) == Add(y, x)
  {}

  lemma Regroup(p: Poly, q: Poly, m: Poly, n: nat)
    ensures Add(Shift(Add(Shift(q, n), m), 16), Shift(p, n + 8)) ==
            Add(Shift(Add(Shift(p, 8), Shift(q, 16)), n), Shift(m, 16))
  {
    ShiftAdd(Shift(p, 8), Shift(q, 16), n);
    ShiftAdd(Shift(q, n), m, 16);
    ShiftShift(p, 8, n);
    ShiftShift(q, 16, n);
    ShiftShift(q, n, 16);
    AddSwap(Shift(q, n + 16), Shift(m, 16), Shift(p, n + 8));
  }

  lemma AddSwap(x: Poly, y: Poly, z: Poly)
    ensures Add(Add(x, y), z) == Add(Add(z, x), y)
  {}

  /** `crc16` is the remainder of message * x^16 (plus the continued register) modulo
      x^16 + x^12 + x^5 + 1, and by `RemainderUnique` no other 16-bit value is. */
  lemma CrcIsRemainder(data: seq<byte>, crc: bv16)
    ensures IsRemainder(Dividend(data, crc), Bits(Crc16(data, crc)))
    ensures forall r: Poly :: IsRemainder(Dividend(data, crc), r) ==> r == Bits(Crc16(data, crc))
  {
    var p, c := Dividend(data, crc), Bits(Crc16(data, crc));
    CrcCongruent(data, crc);
    CongruentSym(c, p);
    forall r: Poly | IsRemainder(p, r) ensures r == c {
      RemainderUnique(p, r, c);
    }
  }
}

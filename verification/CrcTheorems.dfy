/** What the remainder view of `crc16` buys: incremental use, linearity, the zero
    residue, and the classes of damage that can never go unnoticed. */
module CrcTheorems {
  import opened Bytes
  import opened Polynomial
  import opened Crc

  // ---- Incremental use ----

  /** Continuing from a CRC is the CRC of the concatenation. */
  lemma {:induction false} CrcConcat(a: seq<byte>, b: seq<byte>, crc: bv16)
    ensures Crc16(a + b, crc) == Crc16(b, Crc16(a, crc))
  {
    if a == [] {
      assert a + b == b;
    } else {
      assert (a + b)[1..] == a[1..] + b;
      CrcConcat(a[1..], b, ByteStep(crc, a[0]));
    }
  }

  // ---- Bits of a message ----

  lemma {:induction false} MessageSmall(data: seq<byte>, e: nat)
    requires e in Message(data)
    ensures e < 8 * |data|
    decreases |data|
  {
    if data != [] {
      ByteBitsSmall(data[0]);
      if e in Message(data[1..]) { MessageSmall(data[1..], e); }
    }
  }

  /** Byte k of a message occupies the eight coefficients from x^(8 * (bytes after it)). */
  lemma {:induction false} MessageBit(data: seq<byte>, k: nat, x: nat)
    requires k < |data| && x < 8
    ensures 8 * (|data| - 1 - k) + x in Message(data) <==> x in ByteBits(data[k])
    decreases |data|
  {
    var e := 8 * (|data| - 1 - k) + x;
    ByteBitsSmall(data[0]);
    if k > 0 {
      MessageBit(data[1..], k - 1, x);
    } else if e in Message(data[1..]) {
      MessageSmall(data[1..], e);
    }
  }

  lemma SixteenBits(d: bv16)
    requires d & 0x1 == 0 && d & 0x2 == 0 && d & 0x4 == 0 && d & 0x8 == 0
    requires d & 0x10 == 0 && d & 0x20 == 0 && d & 0x40 == 0 && d & 0x80 == 0
    requires d & 0x100 == 0 && d & 0x200 == 0 && d & 0x400 == 0 && d & 0x800 == 0
    requires d & 0x1000 == 0 && d & 0x2000 == 0 && d & 0x4000 == 0 && d & 0x8000 == 0
    ensures d == 0
  {}

  lemma NoBitsIsZero(d: bv16)
    requires Bits(d) == {}
    ensures d == 0
  {
    assert forall i: nat | i < 16 :: d & Mask(i) == 0 by {
      forall i: nat | i < 16 ensures d & Mask(i) == 0 { assert i !in Bits(d); }
    }
    assert Mask(3) == 0x8 && Mask(6) == 0x40;
    assert Mask(9) == 0x200 && Mask(12) == 0x1000 && Mask(15) == 0x8000;
    SixteenBits(d);
  }

  lemma XorZero(x: bv16, y: bv16)
    requires x ^ y == 0
    ensures x == y
  {}

  lemma WidenInjective(a: byte, b: byte)
    requires a as bv16 == b as bv16
    ensures a == b
  {}

  lemma SameBitsSameByte(a: byte, b: byte)
    requires ByteBits(a) == ByteBits(b)
    ensures a == b
  {
    var x, y := a as bv16, b as bv16;
    BitsXor(x, y);
    assert Add(Bits(x), Bits(y)) == {};
    NoBitsIsZero(x ^ y);
    XorZero(x, y);
    WidenInjective(a, b);
  }

  /** Two different bytes differ in some bit, so the messages differ in that coefficient. */
  lemma DifferingCoefficient(a: seq<byte>, b: seq<byte>, k: nat) returns (e: nat)
    requires |a| == |b| && k < |a| && a[k] != b[k]
    ensures (e in Message(a)) != (e in Message(b))
  {
    var p, q := ByteBits(a[k]), ByteBits(b[k]);
    assert p != q by {
      if p == q { SameBitsSameByte(a[k], b[k]); }
    }
    var x: nat :| (x in p) != (x in q);
    ByteBitsSmall(a[k]);
    ByteBitsSmall(b[k]);
    e := 8 * (|a| - 1 - k) + x;
    MessageBit(a, k, x);
    MessageBit(b, k, x);
  }

  // ---- Undetectable damage is a multiple of the generator ----

  /** The damage between two messages of one length. */
  function Damage(a: seq<byte>, b: seq<byte>): Poly {
    Add(Message(a), Message(b))
  }

  lemma CancelCommon(x: Poly, y: Poly, z: Poly)
    ensures Add(Add(x, z), Add(y, z)) == Add(x, y)
  {}

  lemma MultipleFromCongruence(x: Poly, y: Poly) returns (q: Poly)
    requires Congruent(x, y)
    ensures Add(x, y) == MulG(q)
  {
    q :| x == Add(y, MulG(q));
  }

  lemma EqualCrcDamage(a: seq<byte>, b: seq<byte>, crc: bv16) returns (q: Poly)
    requires |a| == |b| && Crc16(a, crc) == Crc16(b, crc)
    ensures Shift(Damage(a, b), 16) == MulG(q)
  {
    var r := Bits(Crc16(a, crc));
    var x, y := Dividend(a, crc), Dividend(b, crc);
    CrcCongruent(a, crc);
    CrcCongruent(b, crc);
    CongruentSym(r, x);
    CongruentTrans(x, r, y);
    q := MultipleFromCongruence(x, y);
    CancelCommon(Shift(Message(a), 16), Shift(Message(b), 16), Shift(Bits(crc), 8 * |a|));
    ShiftAdd(Message(a), Message(b), 16);
  }

  lemma DamageIsNonZero(a: seq<byte>, b: seq<byte>)
    requires |a| == |b| && a != b
    ensures Damage(a, b) != {}
  {
    var k :| 0 <= k < |a| && a[k] != b[k];
    var e := DifferingCoefficient(a, b, k);
    assert e in Damage(a, b);
  }

  /** Every error burst of at most sixteen consecutive bits changes the CRC. */
  lemma BurstDetected(a: seq<byte>, b: seq<byte>, crc: bv16, lo: nat)
    requires |a| == |b| && a != b
    requires forall e: nat | e in Damage(a, b) :: lo <= e < lo + 16
    ensures Crc16(a, crc) != Crc16(b, crc)
  {
    if Crc16(a, crc) == Crc16(b, crc) {
      var q := EqualCrcDamage(a, b, crc);
      DamageIsNonZero(a, b);
      var d: nat :| d in Damage(a, b);
      assert d + 16 in MulG(q);
      assert q != {} by {
        assert MulG({}) == {};
      }
      var low, top := MultipleSpansSixteen(q);
      assert false;
    }
  }

  /** Every error that flips an odd number of bits changes the CRC. */
  lemma OddErrorsDetected(a: seq<byte>, b: seq<byte>, crc: bv16)
    requires |a| == |b| && |Damage(a, b)| % 2 == 1
    ensures Crc16(a, crc) != Crc16(b, crc)
  {
    if Crc16(a, crc) == Crc16(b, crc) {
      var q := EqualCrcDamage(a, b, crc);
      MultipleIsEven(q);
      ShiftSize(Damage(a, b), 16);
      assert false;
    }
  }

  /** Bodies of one length that differ only within two adjacent bytes never share a CRC. */
  lemma AdjacentBytesDetected(a: seq<byte>, b: seq<byte>, crc: bv16, i: nat)
    requires |a| == |b| && a != b
    requires forall k | 0 <= k < |a| && k != i && k != i + 1 :: a[k] == b[k]
    ensures Crc16(a, crc) != Crc16(b, crc)
  {
    var n := |a|;
    var lo: nat := if i + 2 <= n then 8 * (n - 2 - i) else 0;
    forall e: nat | e in Damage(a, b) ensures lo <= e < lo + 16 {
      if e in Message(a) { MessageSmall(a, e); } else { MessageSmall(b, e); }
      var k, x := n - 1 - e / 8, e % 8;
      MessageBit(a, k, x);
      MessageBit(b, k, x);
      assert k == i || k == i + 1;
    }
    BurstDetected(a, b, crc, lo);
  }

  // ---- Linearity ----

  lemma WidenXor(a: byte, b: byte)
    ensures (a ^ b) as bv16 == (a as bv16) ^ (b as bv16)
  {}

  lemma ByteXorBits(a: byte, b: byte)
    ensures ByteBits(a ^ b) == Add(ByteBits(a), ByteBits(b))
  {
    WidenXor(a, b);
    BitsXor(a as bv16, b as bv16);
  }

  lemma MessageXor(a: seq<byte>, b: seq<byte>)
    requires |a| == |b|
    ensures Message(XorBytes(a, b)) == Add(Message(a), Message(b))
    decreases |a|
  {
    if a == [] {
      assert Add(Message(a), Message(b)) == {};
    } else {
      var n := 8 * (|a| - 1);
      XorBytesTail(a, b);
      MessageXor(a[1..], b[1..]);
      ByteXorBits(a[0], b[0]);
      RegroupSum(ByteBits(a[0]), ByteBits(b[0]), Message(a[1..]), Message(b[1..]), n);
    }
  }

  lemma RegroupSum(p: Poly, q: Poly, m: Poly, n: Poly, k: nat)
    ensures Add(Shift(Add(p, q), k), Add(m, n)) == Add(Add(Shift(p, k), m), Add(Shift(q, k), n))
  {
    ShiftAdd(p, q, k);
  }

  lemma CongruentSum(a: Poly, b: Poly, x: Poly, y: Poly)
    requires Congruent(a, x) && Congruent(b, y)
    ensures Congruent(Add(a, b), Add(x, y))
  {
    CongruentAdd(a, x, b);
    CongruentAdd(b, y, x);
    AddComm(b, x);
    AddComm(y, x);
    CongruentTrans(Add(a, b), Add(x, b), Add(x, y));
  }

  lemma SameBitsSameWord(x: bv16, y: bv16)
    requires Bits(x) == Bits(y)
    ensures x == y
  {
    BitsXor(x, y);
    assert Add(Bits(x), Bits(y)) == {};
    NoBitsIsZero(x ^ y);
    XorZero(x, y);
  }

  lemma XorDividend(a: seq<byte>, b: seq<byte>, c: bv16, d: bv16)
    requires |a| == |b|
    ensures Dividend(XorBytes(a, b), c ^ d) == Add(Dividend(a, c), Dividend(b, d))
  {
    MessageXor(a, b);
    BitsXor(c, d);
    ShiftAdd(Message(a), Message(b), 16);
    RegroupSum(Bits(c), Bits(d), Shift(Message(a), 16), Shift(Message(b), 16), 8 * |a|);
    AddComm(Shift(Bits(c), 8 * |a|), Shift(Message(a), 16));
    AddComm(Shift(Bits(d), 8 * |a|), Shift(Message(b), 16));
    AddComm(Shift(Bits(c ^ d), 8 * |a|), Shift(Message(XorBytes(a, b)), 16));
  }

  lemma XorRemainder(p: Poly, q: Poly, x: bv16, y: bv16)
    requires IsRemainder(p, Bits(x)) && IsRemainder(q, Bits(y))
    ensures IsRemainder(Add(p, q), Bits(x ^ y))
  {
    CongruentSum(p, q, Bits(x), Bits(y));
    BitsXor(x, y);
  }

  lemma SumOfRemainders(p: Poly, q: Poly, r: Poly, x: bv16, y: bv16, z: bv16)
    requires IsRemainder(p, Bits(x)) && IsRemainder(q, Bits(y)) && IsRemainder(r, Bits(z))
    requires r == Add(p, q)
    ensures z == x ^ y
  {
    XorRemainder(p, q, x, y);
    var w := x ^ y;
    RemainderUnique(r, Bits(w), Bits(z));
    SameBitsSameWord(w, z);
  }

  /** The CRC is linear over exclusive or, in the message and the register together. */
  lemma CrcLinear(a: seq<byte>, b: seq<byte>, c: bv16, d: bv16)
    requires |a| == |b|
    ensures Crc16(XorBytes(a, b), c ^ d) == Crc16(a, c) ^ Crc16(b, d)
  {
    var m, e := XorBytes(a, b), c ^ d;
    XorDividend(a, b, c, d);
    CrcIsRemainder(a, c);
    CrcIsRemainder(b, d);
    CrcIsRemainder(m, e);
    SumOfRemainders(Dividend(a, c), Dividend(b, d), Dividend(m, e), Crc16(a, c), Crc16(b, d), Crc16(m, e));
  }

  // ---- The zero residue ----

  lemma ClearTopSteps(x: bv16)
    requires x & 0xFF00 == 0
    ensures ShiftSteps(x, 8) == x << 8
  {
    assert ShiftSteps(x, 8) ==
      ShiftStep(ShiftStep(ShiftStep(ShiftStep(ShiftStep(ShiftStep(ShiftStep(ShiftStep(x))))))));
    EightClearSteps(x);
  }

  lemma EightClearSteps(x: bv16)
    requires x & 0xFF00 == 0
    ensures ShiftStep(ShiftStep(ShiftStep(ShiftStep(ShiftStep(ShiftStep(ShiftStep(ShiftStep(x)))))))) == x << 8
  {}

  lemma OwnBytesCancel(c: bv16)
    ensures c ^ ((HighByte(c) as bv16) << 8) == c & 0xFF
    ensures ((c & 0xFF) << 8) ^ ((LowByte(c) as bv16) << 8) == 0
  {}

  lemma OwnCrcResidue(c: bv16)
    ensures ByteStep(ByteStep(c, HighByte(c)), LowByte(c)) == 0
  {
    OwnBytesCancel(c);
    assert (c & 0xFF) & 0xFF00 == 0;
    ClearTopSteps(c & 0xFF);
    ClearTopSteps(0);
  }

  lemma CrcUnfold(data: seq<byte>, c: bv16, d: bv16)
    requires data != [] && d == ByteStep(c, data[0])
    ensures Crc16(data, c) == Crc16(data[1..], d)
  {}

  lemma TwoByteCrc(c: bv16, x: byte, y: byte)
    ensures Crc16([x, y], c) == ByteStep(ByteStep(c, x), y)
  {
    CrcUnfold([x, y], c, ByteStep(c, x));
    assert [x, y][1..] == [y];
    CrcUnfold([y], ByteStep(c, x), ByteStep(ByteStep(c, x), y));
  }

  /** A body followed by two bytes has CRC zero exactly when those bytes are its own CRC. */
  lemma ZeroResidue(data: seq<byte>, crc: bv16, hi: byte, lo: byte)
    ensures Crc16(data + [hi, lo], crc) == 0 <==>
            hi == HighByte(Crc16(data, crc)) && lo == LowByte(Crc16(data, crc))
  {
    var c := Crc16(data, crc);
    var own := data + [HighByte(c), LowByte(c)];
    var given := data + [hi, lo];
    assert Crc16(own, crc) == 0 by {
      CrcConcat(data, [HighByte(c), LowByte(c)], crc);
      TwoByteCrc(c, HighByte(c), LowByte(c));
      OwnCrcResidue(c);
    }
    if given != own {
      AdjacentBytesDetected(given, own, crc, |data|);
      assert given[|data|] == hi && given[|data| + 1] == lo;
    } else {
      assert own[|data|] == given[|data|] && own[|data| + 1] == given[|data| + 1];
    }
  }
}

/** Octets as Python's `bytes` holds them. */
module Bytes {
  type byte = bv8

  datatype Option<+T> = None | Some(value: T)

  /** A byte as Python's `bytes` indexing yields it, and back. */
  function ToInt(b: byte): (n: int)
    ensures 0 <= n < 256
  {
    b as int
  }

  function FromInt(n: int): byte
    requires 0 <= n < 256
  {
    n as bv8
  }

  /** `bytes([v & 0xFF])`: the low eight bits of any integer. */
  function LowByteOf(v: int): byte {
    FromInt(v % 256)
  }

  lemma FromToInt(b: byte)
    ensures FromInt(ToInt(b)) == b
  {}

  lemma Successor(b: byte)
    requires b != 0xFF
    ensures ToInt(b + 1) == ToInt(b) + 1
  {}

  lemma Ends()
    ensures ToInt(0) == 0 && ToInt(0xFF) == 255
  {}

  /** Every value below 256 is the value of some byte. */
  lemma {:induction false} Onto(n: nat) returns (b: byte)
    requires n < 256
    ensures ToInt(b) == n
  {
    Ends();
    if n == 0 {
      b := 0;
    } else {
      var p := Onto(n - 1);
      Successor(p);
      b := p + 1;
    }
  }

  lemma IntFromTo(n: nat)
    requires n < 256
    ensures ToInt(FromInt(n)) == n
  {
    var b := Onto(n);
    FromToInt(b);
  }

  lemma SmallMod(n: int)
    requires 0 <= n < 256
    ensures n % 256 == n
  {}

  lemma LowByteOfByte(b: byte)
    ensures LowByteOf(ToInt(b)) == b
  {
    FromToInt(b);
    SmallMod(ToInt(b));
  }

  predicate EndsWith<T(==)>(s: seq<T>, suffix: seq<T>) {
    |suffix| <= |s| && s[|s| - |suffix|..] == suffix
  }

  lemma EndsWithExtended<T>(s: seq<T>, suffix: seq<T>, more: seq<T>)
    requires EndsWith(s, suffix)
    ensures EndsWith(s + more, suffix + more)
  {
    var k := |s| - |suffix|;
    assert s == s[..k] + suffix;
    assert s + more == s[..k] + (suffix + more);
  }

  /** Element-wise exclusive or of two runs of bytes of one length. */
  function XorBytes(a: seq<byte>, b: seq<byte>): (r: seq<byte>)
    requires |a| == |b|
    ensures |r| == |a|
  {
    seq(|a|, i requires 0 <= i < |a| => a[i] ^ b[i])
  }

  lemma XorBytesTail(a: seq<byte>, b: seq<byte>)
    requires |a| == |b| > 0
    ensures XorBytes(a, b)[0] == a[0] ^ b[0]
    ensures XorBytes(a, b)[1..] == XorBytes(a[1..], b[1..])
  {}

  lemma XorBytesPrefix(a: seq<byte>, b: seq<byte>, m: nat)
    requires |a| == |b| && m <= |a|
    ensures XorBytes(a, b)[..m] == XorBytes(a[..m], b[..m])
  {}

  function Concat<T>(parts: seq<seq<T>>): seq<T> {
    if parts == [] then [] else parts[0] + Concat(parts[1..])
  }
}

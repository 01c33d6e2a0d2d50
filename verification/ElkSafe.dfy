/** ElkRP's at-rest obfuscation: RC4 with a second key-scheduling pass, and the textual
    escape for NUL (src/elk_programmer/storage/elksafe.py). */
module ElkSafe {
  import opened Bytes

  const BASE_KEY: seq<byte> := [80, 23, 14, 120, 48, 223, 77, 121]

  // ---- Key derivation ----

  /** The modifier xored onto the key: its first seven characters, low eight bits each. */
  function Modified(key: seq<byte>, modifier: seq<byte>): (r: seq<byte>)
    requires |key| >= 7
    ensures |r| == |key|
  {
    seq(|key|, i requires 0 <= i < |key| => if i < 7 && i < |modifier| then key[i] ^ modifier[i] else key[i])
  }

  function DerivedKey(key: seq<byte>, modifiers: seq<seq<byte>>): (r: seq<byte>)
    requires |key| >= 7
    ensures |r| == |key|
    decreases |modifiers|
  {
    if modifiers == [] then key else DerivedKey(Modified(key, modifiers[0]), modifiers[1..])
  }

  /** The inner loop of `derive_key`: at most seven characters are used. */
  method XorModifier(buffer: array<byte>, modifier: seq<byte>)
    requires buffer.Length >= 7
    modifies buffer
    ensures buffer[..] == Modified(old(buffer[..]), modifier)
  {
    var used := if |modifier| < 7 then |modifier| else 7;
    for i := 0 to used
      invariant forall k | 0 <= k < i :: buffer[k] == old(buffer[k]) ^ modifier[k]
      invariant forall k | i <= k < buffer.Length :: buffer[k] == old(buffer[k])
    {
      buffer[i] := buffer[i] ^ modifier[i];
    }
  }

  /** `derive_key`, over a mutable key as in the source. */
  method DeriveKey(modifiers: seq<seq<byte>>) returns (key: seq<byte>)
    ensures key == DerivedKey(BASE_KEY, modifiers)
  {
    var buffer := new byte[8](i requires 0 <= i < 8 => BASE_KEY[i]);
    assert buffer[..] == BASE_KEY;
    for m := 0 to |modifiers|
      invariant DerivedKey(buffer[..], modifiers[m..]) == DerivedKey(BASE_KEY, modifiers)
    {
      XorModifier(buffer, modifiers[m]);
      assert modifiers[m..][1..] == modifiers[m + 1..];
    }
    key := buffer[..];
  }

  /** What a modifier contributes to key byte i. */
  function Contribution(m: seq<byte>, i: nat): byte {
    if i < 7 && i < |m| then m[i] else 0
  }

  lemma XorCommutes(k: byte, a: byte, b: byte)
    ensures (k ^ a) ^ b == (k ^ b) ^ a && (k ^ a) ^ a == k
  {}

  lemma XorNothing(k: byte)
    ensures k ^ 0 == k
  {}

  lemma ModifiedAt(key: seq<byte>, m: seq<byte>, i: nat)
    requires |key| >= 7 && i < |key|
    ensures Modified(key, m)[i] == key[i] ^ Contribution(m, i)
  {
    XorNothing(key[i]);
  }

  lemma ModifiedTwice(key: seq<byte>, a: seq<byte>, b: seq<byte>, i: nat)
    requires |key| >= 7 && i < |key|
    ensures Modified(Modified(key, a), b)[i] == (key[i] ^ Contribution(a, i)) ^ Contribution(b, i)
  {
    ModifiedAt(key, a, i);
    ModifiedAt(Modified(key, a), b, i);
  }

  lemma ModifiersCommuteAt(key: seq<byte>, a: seq<byte>, b: seq<byte>, i: nat)
    requires |key| >= 7 && i < |key|
    ensures Modified(Modified(key, a), b)[i] == Modified(Modified(key, b), a)[i]
    ensures Modified(Modified(key, a), a)[i] == key[i]
  {
    ModifiedTwice(key, a, b, i);
    ModifiedTwice(key, b, a, i);
    ModifiedTwice(key, a, a, i);
    XorCommutes(key[i], Contribution(a, i), Contribution(b, i));
  }

  /** Two modifiers may change places, and one given twice cancels itself. */
  lemma ModifiersCommute(key: seq<byte>, a: seq<byte>, b: seq<byte>)
    requires |key| >= 7
    ensures Modified(Modified(key, a), b) == Modified(Modified(key, b), a)
    ensures Modified(Modified(key, a), a) == key
  {
    forall i | 0 <= i < |key|
      ensures Modified(Modified(key, a), b)[i] == Modified(Modified(key, b), a)[i]
      ensures Modified(Modified(key, a), a)[i] == key[i]
    {
      ModifiersCommuteAt(key, a, b, i);
    }
  }

  lemma DerivedFirst(key: seq<byte>, m: seq<byte>, rest: seq<seq<byte>>)
    requires |key| >= 7
    ensures DerivedKey(key, [m] + rest) == DerivedKey(Modified(key, m), rest)
  {
    assert ([m] + rest)[1..] == rest;
  }

  function Without<T>(s: seq<T>, k: nat): seq<T>
    requires k < |s|
  {
    s[..k] + s[k + 1..]
  }

  lemma WithoutLater<T>(s: seq<T>, k: nat)
    requires 0 < k < |s|
    ensures Without(s, k) == [s[0]] + Without(s[1..], k - 1) && s == [s[0]] + s[1..]
  {}

  lemma WithoutOne<T>(s: seq<T>, k: nat)
    requires k < |s|
    ensures multiset(Without(s, k)) == multiset(s) - multiset{s[k]}
  {
    assert s == s[..k] + [s[k]] + s[k + 1..];
  }

  /** Any modifier may come first. */
  lemma {:induction false} ModifierToFront(key: seq<byte>, ms: seq<seq<byte>>, k: nat)
    requires |key| >= 7 && k < |ms|
    ensures DerivedKey(key, ms) == DerivedKey(Modified(key, ms[k]), Without(ms, k))
    decreases k
  {
    if k == 0 {
      assert Without(ms, 0) == ms[1..];
    } else {
      ModifierToFront(Modified(key, ms[0]), ms[1..], k - 1);
      ModifiersCommute(key, ms[0], ms[k]);
      WithoutLater(ms, k);
      DerivedFirst(Modified(key, ms[k]), ms[0], Without(ms[1..], k - 1));
    }
  }

  /** The derived key depends only on which modifiers are given how often, not on their order. */
  lemma {:induction false} ModifierOrderIrrelevant(key: seq<byte>, ms: seq<seq<byte>>, ns: seq<seq<byte>>)
    requires |key| >= 7 && multiset(ms) == multiset(ns)
    ensures DerivedKey(key, ms) == DerivedKey(key, ns)
    decreases |ms|
  {
    assert |ms| == |multiset(ms)| && |ns| == |multiset(ns)|;
    if ms != [] {
      assert ms[0] in multiset(ns);
      var k :| 0 <= k < |ns| && ns[k] == ms[0];
      WithoutOne(ms, 0);
      WithoutOne(ns, k);
      assert Without(ms, 0) == ms[1..];
      ModifierOrderIrrelevant(Modified(key, ms[0]), ms[1..], Without(ns, k));
      ModifierToFront(key, ns, k);
    }
  }

  // ---- The cipher state ----

  /** 0, 1, ..., 255 in order. */
  function Identity(): (s: seq<nat>)
    ensures |s| == 256
  {
    seq(256, i requires 0 <= i < 256 => i)
  }

  /** 256 entries that are all bytes; what the index arithmetic relies on. */
  predicate IsTable(s: seq<nat>) {
    |s| == 256 && forall i | 0 <= i < 256 :: s[i] < 256
  }

  /** A permutation of 0..255. */
  predicate IsPermutation(s: seq<nat>) {
    IsTable(s) && multiset(s) == multiset(Identity())
  }

  function Swapped(s: seq<nat>, i: nat, j: nat): seq<nat>
    requires i < |s| && j < |s|
  {
    s[i := s[j]][j := s[i]]
  }

  /** Position of the two indices and the state array. */
  datatype Cipher = Cipher(s: seq<nat>, i: nat, j: nat)

  predicate Valid(c: Cipher) {
    IsTable(c.s) && c.i < 256 && c.j < 256
  }

  lemma SwapKeepsTable(s: seq<nat>, i: nat, j: nat)
    requires IsTable(s) && i < 256 && j < 256
    ensures IsTable(Swapped(s, i, j))
  {}

  /** The key byte mixed in at index i; the second pass has no key and mixes in nothing. */
  function KeyByte(key: seq<byte>, i: nat): int {
    if key == [] then 0 else ToInt(key[i % |key|])
  }

  function NextIndex(key: seq<byte>, s: seq<nat>, i: nat, j: nat): (k: nat)
    requires i < |s|
    ensures k < 256
  {
    (j + s[i] + KeyByte(key, i)) % 256
  }

  /** Key scheduling from index i on; an empty `key` stands for the second, unkeyed pass. */
  function Schedule(key: seq<byte>, s: seq<nat>, i: nat, j: nat): (r: (seq<nat>, nat))
    requires IsTable(s) && i <= 256 && j < 256
    ensures IsTable(r.0) && r.1 < 256
    decreases 256 - i
  {
    if i == 256 then (s, j)
    else
      var k := NextIndex(key, s, i, j);
      SwapKeepsTable(s, i, k);
      Schedule(key, Swapped(s, i, k), i + 1, k)
  }

  /** Both passes; the second carries j over. Output starts from i = j = 0. */
  function Keyed(key: seq<byte>): (c: Cipher)
    requires key != []
    ensures Valid(c)
  {
    var (s, j) := Schedule(key, Identity(), 0, 0);
    Cipher(Schedule([], s, 0, j).0, 0, 0)
  }

  /** One output step: the next state and keystream byte. It does not see the data. */
  function Advance(c: Cipher): (r: Cipher)
    requires Valid(c)
    ensures Valid(r)
  {
    var i := (c.i + 1) % 256;
    var j := (c.j + c.s[i]) % 256;
    SwapKeepsTable(c.s, i, j);
    Cipher(Swapped(c.s, i, j), i, j)
  }

  function Emit(c: Cipher): byte
    requires Valid(c)
  {
    c.s[(c.s[c.i] + c.s[c.j]) % 256] as bv8
  }

  function Keystream(c: Cipher, n: nat): (r: seq<byte>)
    requires Valid(c)
    ensures |r| == n
    decreases n
  {
    if n == 0 then [] else var d := Advance(c); [Emit(d)] + Keystream(d, n - 1)
  }

  /** The cipher as a whole: the data xored with the key's own keystream. */
  function Rc4(key: seq<byte>, data: seq<byte>): (r: seq<byte>)
    requires key != []
    ensures |r| == |data|
  {
    XorBytes(data, Keystream(Keyed(key), |data|))
  }

  lemma {:induction false} KeystreamSnoc(c: Cipher, n: nat) returns (d: Cipher)
    requires Valid(c)
    ensures Valid(d) && d == After(c, n)
    ensures Keystream(c, n + 1) == Keystream(c, n) + [Emit(Advance(d))]
    decreases n
  {
    if n == 0 {
      d := c;
      assert Keystream(Advance(c), 0) == [];
    } else {
      d := KeystreamSnoc(Advance(c), n - 1);
    }
  }

  function After(c: Cipher, n: nat): (r: Cipher)
    requires Valid(c)
    ensures Valid(r)
    decreases n
  {
    if n == 0 then c else After(Advance(c), n - 1)
  }

  lemma {:induction false} AfterSnoc(c: Cipher, n: nat)
    requires Valid(c)
    ensures After(c, n + 1) == Advance(After(c, n))
    decreases n
  {
    if n > 0 { AfterSnoc(Advance(c), n - 1); }
  }

  method Swap(s: array<nat>, i: nat, j: nat)
    requires i < s.Length && j < s.Length
    modifies s
    ensures s[..] == Swapped(old(s[..]), i, j)
  {
    s[i], s[j] := s[j], s[i];
  }

  lemma ScheduleUnfold(key: seq<byte>, s: seq<nat>, i: nat, j: nat, k: nat, t: seq<nat>)
    requires IsTable(s) && i < 256 && j < 256
    requires k == NextIndex(key, s, i, j) && t == Swapped(s, i, k)
    ensures IsTable(t)
    ensures Schedule(key, s, i, j) == Schedule(key, t, i + 1, k)
  {
    SwapKeepsTable(s, i, k);
  }

  method ScheduleStep(key: seq<byte>, s: array<nat>, i: nat, j: nat) returns (k: nat)
    requires IsTable(s[..]) && i < 256 && j < 256
    modifies s
    ensures IsTable(s[..]) && k < 256
    ensures Schedule(key, s[..], i + 1, k) == Schedule(key, old(s[..]), i, j)
  {
    ghost var before := s[..];
    assert s.Length == |before|;
    assert s[i] == before[i];
    k := (j + s[i] + if key == [] then 0 else ToInt(key[i % |key|])) % 256;
    Swap(s, i, k);
    ScheduleUnfold(key, before, i, j, k, s[..]);
  }

  /** One key-scheduling loop over the state array in place. */
  method ScheduleInPlace(key: seq<byte>, s: array<nat>, start: nat) returns (j: nat)
    requires IsTable(s[..]) && start < 256
    modifies s
    ensures IsTable(s[..]) && j < 256
    ensures (s[..], j) == Schedule(key, old(s[..]), 0, start)
  {
    j := start;
    for i := 0 to 256
      invariant j < 256 && IsTable(s[..])
      invariant Schedule(key, s[..], i, j) == Schedule(key, old(s[..]), 0, start)
    {
      j := ScheduleStep(key, s, i, j);
    }
  }

  /** One output step in place. */
  method OutputStep(s: array<nat>, i: nat, j: nat) returns (i': nat, j': nat, k: byte)
    requires Valid(Cipher(s[..], i, j))
    modifies s
    ensures i' < 256 && j' < 256
    ensures Cipher(s[..], i', j') == Advance(Cipher(old(s[..]), i, j))
    ensures k == Emit(Advance(Cipher(old(s[..]), i, j)))
  {
    ghost var before := s[..];
    assert s.Length == |before|;
    i' := (i + 1) % 256;
    assert s[i'] == before[i'];
    j' := (j + s[i']) % 256;
    SwapKeepsTable(before, i', j');
    Swap(s, i', j');
    ghost var after := s[..];
    assert after[i'] == s[i'] && after[j'] == s[j'];
    k := EmitFrom(s, i', j');
  }

  method EmitFrom(s: array<nat>, i: nat, j: nat) returns (k: byte)
    requires Valid(Cipher(s[..], i, j))
    ensures k == Emit(Cipher(s[..], i, j))
  {
    ghost var now := s[..];
    assert s.Length == |now|;
    var x := (s[i] + s[j]) % 256;
    assert s[i] == now[i] && s[j] == now[j] && s[x] == now[x];
    k := s[x] as bv8;
  }

  /** `rc4`: schedule twice, then xor byte by byte while the state array keeps moving. */
  method Crypt(key: seq<byte>, data: seq<byte>) returns (out: seq<byte>)
    requires key != []
    ensures out == Rc4(key, data)
  {
    var s := new nat[256](i => i);
    assert s[..] == Identity();
    var j := ScheduleInPlace(key, s, 0);
    j := ScheduleInPlace([], s, j);
    ghost var c := Keyed(key);
    out := [];
    var i := 0;
    j := 0;
    for n := 0 to |data|
      invariant i < 256 && j < 256
      invariant Cipher(s[..], i, j) == After(c, n)
      invariant out == XorBytes(data[..n], Keystream(c, n))
    {
      ghost var d := KeystreamSnoc(c, n);
      AfterSnoc(c, n);
      var k: byte;
      i, j, k := OutputStep(s, i, j);
      XorSnoc(data, Keystream(c, n), n, k);
      out := out + [data[n] ^ k];
    }
    assert data[..|data|] == data;
  }

  lemma XorSnoc(data: seq<byte>, stream: seq<byte>, n: nat, k: byte)
    requires n < |data| && |stream| == n
    ensures XorBytes(data[..n], stream) + [data[n] ^ k] == XorBytes(data[..n + 1], stream + [k])
  {}

  // ---- Properties of the cipher ----

  lemma SwapKeepsPermutation(s: seq<nat>, i: nat, j: nat)
    requires IsPermutation(s) && i < 256 && j < 256
    ensures IsPermutation(Swapped(s, i, j))
  {
    SwapKeepsTable(s, i, j);
  }

  /** Every step of either key-scheduling pass keeps the state a permutation of 0..255. */
  lemma {:induction false} ScheduleKeepsPermutation(key: seq<byte>, s: seq<nat>, i: nat, j: nat)
    requires IsPermutation(s) && i <= 256 && j < 256
    ensures IsPermutation(Schedule(key, s, i, j).0)
    decreases 256 - i
  {
    if i < 256 {
      var k := NextIndex(key, s, i, j);
      SwapKeepsPermutation(s, i, k);
      ScheduleUnfold(key, s, i, j, k, Swapped(s, i, k));
      ScheduleKeepsPermutation(key, Swapped(s, i, k), i + 1, k);
    }
  }

  lemma AdvanceKeepsPermutation(c: Cipher)
    requires Valid(c) && IsPermutation(c.s)
    ensures IsPermutation(Advance(c).s)
  {
    var i := (c.i + 1) % 256;
    SwapKeepsPermutation(c.s, i, (c.j + c.s[i]) % 256);
  }

  lemma {:induction false} AfterKeepsPermutation(c: Cipher, n: nat)
    requires Valid(c) && IsPermutation(c.s)
    ensures IsPermutation(After(c, n).s)
    decreases n
  {
    if n > 0 {
      AdvanceKeepsPermutation(c);
      AfterKeepsPermutation(Advance(c), n - 1);
    }
  }

  /** From the identity table, through both scheduling passes and any number of output
      bytes, the state array is a permutation of 0..255. */
  lemma StateIsAlwaysPermutation(key: seq<byte>, n: nat)
    requires key != []
    ensures IsPermutation(After(Keyed(key), n).s)
  {
    var (s, j) := Schedule(key, Identity(), 0, 0);
    ScheduleKeepsPermutation(key, Identity(), 0, 0);
    ScheduleKeepsPermutation([], s, 0, j);
    AfterKeepsPermutation(Keyed(key), n);
  }

  lemma XorTwice(a: byte, k: byte)
    ensures (a ^ k) ^ k == a
  {}

  lemma XorBytesTwice(a: seq<byte>, k: seq<byte>)
    requires |a| == |k|
    ensures XorBytes(XorBytes(a, k), k) == a
  {
    forall i | 0 <= i < |a| ensures XorBytes(XorBytes(a, k), k)[i] == a[i] {
      XorTwice(a[i], k[i]);
    }
  }

  /** `rc4` is its own inverse under every non-empty key. */
  lemma Rc4Inverse(key: seq<byte>, data: seq<byte>)
    requires key != []
    ensures Rc4(key, Rc4(key, data)) == data
  {
    XorBytesTwice(data, Keystream(Keyed(key), |data|));
  }

  lemma {:induction false} KeystreamPrefix(c: Cipher, n: nat, m: nat)
    requires Valid(c) && m <= n
    ensures Keystream(c, n)[..m] == Keystream(c, m)
    decreases m
  {
    if m > 0 { KeystreamPrefix(Advance(c), n - 1, m - 1); }
  }

  /** The keystream does not depend on the data: encrypting a prefix is taking a prefix. */
  lemma Rc4Prefix(key: seq<byte>, data: seq<byte>, m: nat)
    requires key != [] && m <= |data|
    ensures Rc4(key, data)[..m] == Rc4(key, data[..m])
  {
    var c := Keyed(key);
    KeystreamPrefix(c, |data|, m);
    XorBytesPrefix(data, Keystream(c, |data|), m);
  }

  // ---- Byte columns ----

  /** The bytes a run of column values is reduced to before encryption. */
  function ColumnBytes(values: seq<int>): (r: seq<byte>)
    ensures |r| == |values|
  {
    seq(|values|, i requires 0 <= i < |values| => LowByteOf(values[i]))
  }

  function ColumnValues(bytes: seq<byte>): (r: seq<int>)
    ensures |r| == |bytes|
  {
    seq(|bytes|, i requires 0 <= i < |bytes| => ToInt(bytes[i]))
  }

  /** `crypt_columns`: the low byte of each column value, encrypted as one run. */
  method CryptColumns(key: seq<byte>, values: seq<int>) returns (out: seq<int>)
    requires key != []
    ensures out == ColumnValues(Rc4(key, ColumnBytes(values)))
  {
    var crypted := Crypt(key, ColumnBytes(values));
    out := ColumnValues(crypted);
  }

  lemma ColumnBytesOfValues(bytes: seq<byte>)
    ensures ColumnBytes(ColumnValues(bytes)) == bytes
  {
    forall i | 0 <= i < |bytes| ensures ColumnBytes(ColumnValues(bytes))[i] == bytes[i] {
      LowByteOfByte(bytes[i]);
    }
  }

  /** Encrypting columns twice gives back the byte each value was reduced to. */
  lemma ColumnsInverse(key: seq<byte>, values: seq<int>)
    requires key != []
    ensures ColumnValues(Rc4(key, ColumnBytes(ColumnValues(Rc4(key, ColumnBytes(values)))))) ==
            ColumnValues(ColumnBytes(values))
    ensures forall i | 0 <= i < |values| :: ColumnValues(ColumnBytes(values))[i] == values[i] % 256
  {
    forall i | 0 <= i < |values| ensures ColumnValues(ColumnBytes(values))[i] == values[i] % 256 {
      IntFromTo(values[i] % 256);
    }
    ColumnBytesOfValues(Rc4(key, ColumnBytes(values)));
    Rc4Inverse(key, ColumnBytes(values));
  }
}

/** What ElkRP's cipher and its key are (src/elk_programmer/storage/elksafe.py): the tables that the state
    goes through and the bytes they give, step by step, and that the program computes no others. */
module CipherLaws {
  import opened Bytes
  import opened ElkSafe

  // ---- The run of the cipher ----

  /** u is t with the cells a and b exchanged. */
  predicate Exchanged(t: seq<nat>, u: seq<nat>, a: nat, b: nat) {
    && |t| == |u| && a < |t| && b < |t|
    && u[a] == t[b] && u[b] == t[a]
    && forall k | 0 <= k < |t| && k != a && k != b :: u[k] == t[k]
  }

  /** Step t of the two scheduling passes: the key is mixed in by the first only, and the index is carried
      from the first into the second. */
  predicate Scheduled(key: seq<byte>, t: nat, before: seq<nat>, j: nat, after: seq<nat>, k: nat)
    requires key != [] && IsTable(before)
  {
    && k == (j + before[t % 256] + if t < 256 then key[t % |key|] as int else 0) % 256
    && Exchanged(before, after, t % 256, k)
  }

  /** The cell at the sum of the cells i and k. */
  function Cell(t: seq<nat>, i: nat, k: nat): byte
    requires IsTable(t) && i < 256 && k < 256
  {
    t[(t[i] + t[k]) % 256] as bv8
  }

  /** Output step m: the indices start from zero, and the byte is the data's with that cell of the two
      exchanged ones. */
  predicate Emitted(m: nat, before: seq<nat>, j: nat, after: seq<nat>, k: nat, plain: byte, crypt: byte)
    requires IsTable(before) && IsTable(after) && k < 256
  {
    && k == (j + before[(m + 1) % 256]) % 256
    && Exchanged(before, after, (m + 1) % 256, k)
    && crypt == plain ^ Cell(after, (m + 1) % 256, k)
  }

  /** The scheduling passes among the tables ts and indices js. */
  predicate Schedules(key: seq<byte>, ts: seq<seq<nat>>, js: seq<nat>)
    requires key != []
  {
    && |ts| == |js| > 512
    && (forall t | 0 <= t < |ts| :: IsTable(ts[t]) && js[t] < 256)
    && forall t | 0 <= t < 512 :: Scheduled(key, t, ts[t], js[t], ts[t + 1], js[t + 1])
  }

  /** The tables ts and indices js of one run of the cipher, from 0, 1, ..., 255, that turns data into out. */
  predicate CipherRun(key: seq<byte>, data: seq<byte>, out: seq<byte>, ts: seq<seq<nat>>, js: seq<nat>)
    requires key != []
  {
    && |ts| == 513 + |data| && |out| == |data|
    && Schedules(key, ts, js)
    && (forall k | 0 <= k < 256 :: ts[0][k] == k) && js[0] == 0
    && forall m | 0 <= m < |data| ::
         Emitted(m, ts[512 + m], if m == 0 then 0 else js[512 + m], ts[513 + m], js[513 + m], data[m], out[m])
  }

  // ---- A run is the program's ----

  lemma ExchangedIsSwapped(t: seq<nat>, u: seq<nat>, a: nat, b: nat)
    requires a < |t| && b < |t|
    ensures Exchanged(t, u, a, b) <==> u == Swapped(t, a, b)
  {
    if Exchanged(t, u, a, b) { assert u == Swapped(t, a, b); }
  }

  lemma KeyByteIs(key: seq<byte>, t: nat)
    requires key != []
    ensures KeyByte(if t < 256 then key else [], t % 256) == if t < 256 then key[t % |key|] as int else 0
  {}

  /** The state of the schedule. */
  type Mix = (seq<nat>, nat)

  lemma ScheduledIs(key: seq<byte>, part: seq<byte>, t: nat, p: Mix, q: Mix)
    requires key != [] && t < 512 && IsTable(p.0) && part == if t < 256 then key else []
    ensures Scheduled(key, t, p.0, p.1, q.0, q.1) <==>
            q.1 == NextIndex(part, p.0, t % 256, p.1) && q.0 == Swapped(p.0, t % 256, q.1)
  {
    KeyByteIs(key, t);
    ExchangedIsSwapped(p.0, q.0, t % 256, NextIndex(part, p.0, t % 256, p.1));
  }

  /** The part of the key that a pass uses. */
  function Part(key: seq<byte>, start: nat): seq<byte> { if start < 256 then key else [] }

  lemma OneStep(key: seq<byte>, part: seq<byte>, t: nat, i: nat, p: Mix, q: Mix)
    requires key != [] && t < 512 && i == t % 256 && part == if t < 256 then key else []
    requires IsTable(p.0) && p.1 < 256 && Scheduled(key, t, p.0, p.1, q.0, q.1)
    ensures IsTable(q.0) && q.1 < 256 && Schedule(part, p.0, i, p.1) == Schedule(part, q.0, i + 1, q.1)
  {
    ScheduledIs(key, part, t, p, q);
    ScheduleUnfold(part, p.0, i, p.1, q.1, q.0);
  }

  lemma StepOf(key: seq<byte>, ts: seq<seq<nat>>, js: seq<nat>, start: nat, i: nat)
    requires key != [] && Schedules(key, ts, js) && (start == 0 || start == 256) && i < 256
    ensures var t, part := start + i, Part(key, start);
            && IsTable(ts[t]) && js[t] < 256 && IsTable(ts[t + 1]) && js[t + 1] < 256
            && Schedule(part, ts[t], i, js[t]) == Schedule(part, ts[t + 1], i + 1, js[t + 1])
  {
    var t := start + i;
    assert t % 256 == i;
    OneStep(key, Part(key, start), t, i, (ts[t], js[t]), (ts[t + 1], js[t + 1]));
  }

  /** What a pass makes of the state at step i. */
  function Rest(key: seq<byte>, ts: seq<seq<nat>>, js: seq<nat>, start: nat, i: nat): Mix
    requires key != [] && Schedules(key, ts, js) && (start == 0 || start == 256) && i <= 256
  {
    Schedule(Part(key, start), ts[start + i], i, js[start + i])
  }

  /** One pass of the run, from step `start` on, is one scheduling loop. */
  lemma {:induction false} PassIs(key: seq<byte>, ts: seq<seq<nat>>, js: seq<nat>, start: nat, i: nat)
    requires key != [] && Schedules(key, ts, js) && (start == 0 || start == 256) && i <= 256
    ensures Rest(key, ts, js, start, i) == (ts[start + 256], js[start + 256])
    decreases 256 - i
  {
    if i < 256 {
      StepOf(key, ts, js, start, i);
      PassIs(key, ts, js, start, i + 1);
    }
  }

  lemma WholePass(key: seq<byte>, ts: seq<seq<nat>>, js: seq<nat>, start: nat, none: nat)
    requires key != [] && Schedules(key, ts, js) && (start == 0 || start == 256) && none == 0
    ensures Schedule(Part(key, start), ts[start], none, js[start]) == (ts[start + 256], js[start + 256])
  {
    PassIs(key, ts, js, start, none);
  }

  lemma KeyedIs(key: seq<byte>, ts: seq<seq<nat>>, js: seq<nat>)
    requires key != [] && Schedules(key, ts, js) && js[0] == 0 && forall k | 0 <= k < 256 :: ts[0][k] == k
    ensures Keyed(key) == Cipher(ts[512], 0, 0)
  {
    assert ts[0] == Identity();
    WholePass(key, ts, js, 0, 0);
    WholePass(key, ts, js, 256, 0);
  }

  // ---- Output ----

  lemma AdvanceIs(c: Cipher, d: Cipher)
    requires Valid(c)
    ensures d == Advance(c) <==>
            d.i == (c.i + 1) % 256 && d.j == (c.j + c.s[(c.i + 1) % 256]) % 256 && d.s == Swapped(c.s, d.i, d.j)
  {}

  lemma NextResidue(m: nat)
    ensures (m % 256 + 1) % 256 == (m + 1) % 256
  {}

  lemma CellIs(d: Cipher)
    requires Valid(d)
    ensures Cell(d.s, d.i, d.j) == Emit(d)
  {}

  lemma EmittedIs(m: nat, c: Cipher, d: Cipher, plain: byte, crypt: byte)
    requires Valid(c) && Valid(d) && c.i == m % 256 && d.i == (m + 1) % 256
    requires Emitted(m, c.s, c.j, d.s, d.j, plain, crypt)
    ensures d == Advance(c) && crypt == plain ^ Emit(d)
  {
    NextResidue(m);
    ExchangedIsSwapped(c.s, d.s, d.i, d.j);
    AdvanceIs(c, d);
    CellIs(d);
  }

  /** The state before output step m of a run. */
  function OutAt(ts: seq<seq<nat>>, js: seq<nat>, m: nat): Cipher
    requires 512 + m < |ts| == |js|
  {
    Cipher(ts[512 + m], m % 256, if m == 0 then 0 else js[512 + m])
  }

  lemma OutStep(key: seq<byte>, data: seq<byte>, out: seq<byte>, ts: seq<seq<nat>>, js: seq<nat>, m: nat)
    requires key != [] && CipherRun(key, data, out, ts, js) && m < |data|
    ensures Valid(OutAt(ts, js, m)) && Valid(OutAt(ts, js, m + 1))
    ensures OutAt(ts, js, m + 1) == Advance(OutAt(ts, js, m))
    ensures out[m] == data[m] ^ Emit(OutAt(ts, js, m + 1))
  {
    EmittedIs(m, OutAt(ts, js, m), OutAt(ts, js, m + 1), data[m], out[m]);
  }

  /** A state is the one before it advanced, and gives its byte. */
  predicate Steps(c: Cipher, d: Cipher, plain: byte, crypt: byte) {
    Valid(c) && Valid(d) && d == Advance(c) && crypt == plain ^ Emit(d)
  }

  predicate OutSteps(data: seq<byte>, out: seq<byte>, cs: seq<Cipher>) {
    && |out| == |data| && |cs| == |data| + 1 && Valid(cs[0])
    && forall m | 0 <= m < |data| :: Steps(cs[m], cs[m + 1], data[m], out[m])
  }

  function OutStates(ts: seq<seq<nat>>, js: seq<nat>, n: nat): (cs: seq<Cipher>)
    requires 512 + n <= |ts| == |js|
    ensures |cs| == n && forall m | 0 <= m < n :: cs[m] == OutAt(ts, js, m)
  {
    seq(n, m requires 0 <= m < n => OutAt(ts, js, m))
  }

  lemma OutStepAt(key: seq<byte>, data: seq<byte>, out: seq<byte>, ts: seq<seq<nat>>, js: seq<nat>, m: nat)
    requires key != [] && CipherRun(key, data, out, ts, js) && m < |data|
    ensures Steps(OutAt(ts, js, m), OutAt(ts, js, m + 1), data[m], out[m])
  {
    OutStep(key, data, out, ts, js, m);
  }

  lemma RunStartsKeyed(key: seq<byte>, data: seq<byte>, out: seq<byte>, ts: seq<seq<nat>>, js: seq<nat>)
    requires key != [] && CipherRun(key, data, out, ts, js)
    ensures OutAt(ts, js, 0) == Keyed(key)
  {
    KeyedIs(key, ts, js);
  }

  lemma RunOutSteps(key: seq<byte>, data: seq<byte>, out: seq<byte>, ts: seq<seq<nat>>, js: seq<nat>)
    returns (cs: seq<Cipher>)
    requires key != [] && CipherRun(key, data, out, ts, js)
    ensures OutSteps(data, out, cs) && cs[0] == Keyed(key)
  {
    RunStartsKeyed(key, data, out, ts, js);
    cs := OutStates(ts, js, |data| + 1);
    forall m | 0 <= m < |data| ensures Steps(cs[m], cs[m + 1], data[m], out[m]) {
      OutStepAt(key, data, out, ts, js, m);
    }
  }

  lemma {:induction false} StatesAre(data: seq<byte>, out: seq<byte>, cs: seq<Cipher>, m: nat)
    requires OutSteps(data, out, cs) && m <= |data|
    ensures cs[m] == After(cs[0], m)
    decreases m
  {
    if m > 0 {
      StatesAre(data, out, cs, m - 1);
      AfterSnoc(cs[0], m - 1);
    }
  }

  lemma {:induction false} KeystreamAt(c: Cipher, n: nat, m: nat)
    requires Valid(c) && m < n
    ensures Keystream(c, n)[m] == Emit(After(c, m + 1))
    decreases m
  {
    if m > 0 { KeystreamAt(Advance(c), n - 1, m - 1); }
  }

  lemma CryptAt(key: seq<byte>, data: seq<byte>, m: nat)
    requires key != [] && m < |data|
    ensures Rc4(key, data)[m] == data[m] ^ Emit(After(Keyed(key), m + 1))
  {
    KeystreamAt(Keyed(key), |data|, m);
  }

  lemma RunGives(key: seq<byte>, data: seq<byte>, out: seq<byte>, ts: seq<seq<nat>>, js: seq<nat>)
    requires key != [] && CipherRun(key, data, out, ts, js)
    ensures out == Rc4(key, data)
  {
    var cs := RunOutSteps(key, data, out, ts, js);
    StepsGive(key, data, out, cs);
  }

  lemma StepGives(c: Cipher, d: Cipher, plain: byte, crypt: byte, e: Cipher)
    requires Steps(c, d, plain, crypt) && d == e
    ensures crypt == plain ^ Emit(e)
  {}

  lemma StepsGiveAt(data: seq<byte>, out: seq<byte>, cs: seq<Cipher>, m: nat, e: Cipher)
    requires OutSteps(data, out, cs) && m < |data| && e == After(cs[0], m + 1)
    ensures out[m] == data[m] ^ Emit(e)
  {
    StatesAre(data, out, cs, m + 1);
    StepGives(cs[m], cs[m + 1], data[m], out[m], e);
  }

  lemma StepsGive(key: seq<byte>, data: seq<byte>, out: seq<byte>, cs: seq<Cipher>)
    requires key != [] && OutSteps(data, out, cs) && cs[0] == Keyed(key)
    ensures out == Rc4(key, data)
  {
    forall m | 0 <= m < |data| ensures out[m] == Rc4(key, data)[m] {
      StepsGiveAt(data, out, cs, m, After(Keyed(key), m + 1));
      CryptAt(key, data, m);
    }
  }

  // ---- There is a run ----

  lemma ScheduledNext(key: seq<byte>, t: nat, s: seq<nat>, j: nat) returns (after: seq<nat>, k: nat)
    requires key != [] && IsTable(s)
    ensures IsTable(after) && k < 256 && Scheduled(key, t, s, j, after, k)
  {
    k := (j + s[t % 256] + if t < 256 then key[t % |key|] as int else 0) % 256;
    after := Swapped(s, t % 256, k);
    SwapKeepsTable(s, t % 256, k);
    ExchangedIsSwapped(s, after, t % 256, k);
  }

  lemma EmittedNext(m: nat, s: seq<nat>, j: nat, plain: byte) returns (after: seq<nat>, k: nat, crypt: byte)
    requires IsTable(s)
    ensures IsTable(after) && k < 256 && Emitted(m, s, j, after, k, plain, crypt)
  {
    k := (j + s[(m + 1) % 256]) % 256;
    after := Swapped(s, (m + 1) % 256, k);
    SwapKeepsTable(s, (m + 1) % 256, k);
    ExchangedIsSwapped(s, after, (m + 1) % 256, k);
    crypt := plain ^ Cell(after, (m + 1) % 256, k);
  }

  /** The first n scheduling steps. */
  predicate Begins(key: seq<byte>, n: nat, ts: seq<seq<nat>>, js: seq<nat>)
    requires key != []
  {
    && |ts| == |js| == n + 1
    && (forall t | 0 <= t <= n :: IsTable(ts[t]) && js[t] < 256)
    && (forall k | 0 <= k < 256 :: ts[0][k] == k) && js[0] == 0
    && forall t | 0 <= t < n :: Scheduled(key, t, ts[t], js[t], ts[t + 1], js[t + 1])
  }

  lemma BeginsMore(key: seq<byte>, n: nat, ts: seq<seq<nat>>, js: seq<nat>, after: seq<nat>, k: nat)
    requires key != [] && Begins(key, n, ts, js)
    requires IsTable(after) && k < 256 && Scheduled(key, n, ts[n], js[n], after, k)
    ensures Begins(key, n + 1, ts + [after], js + [k])
  {}

  lemma {:induction false} Begun(key: seq<byte>, n: nat) returns (ts: seq<seq<nat>>, js: seq<nat>)
    requires key != []
    ensures Begins(key, n, ts, js)
  {
    if n == 0 {
      ts, js := [Identity()], [0];
    } else {
      ts, js := Begun(key, n - 1);
      var after, k := ScheduledNext(key, n - 1, ts[n - 1], js[n - 1]);
      BeginsMore(key, n - 1, ts, js, after, k);
      ts, js := ts + [after], js + [k];
    }
  }

  lemma RunMore(key: seq<byte>, data: seq<byte>, out: seq<byte>, ts: seq<seq<nat>>, js: seq<nat>, plain: byte,
                crypt: byte, after: seq<nat>, k: nat)
    requires key != [] && CipherRun(key, data, out, ts, js) && IsTable(after) && k < 256
    requires var m := |data|;
             Emitted(m, ts[512 + m], if m == 0 then 0 else js[512 + m], after, k, plain, crypt)
    ensures CipherRun(key, data + [plain], out + [crypt], ts + [after], js + [k])
  {}

  lemma {:induction false} SomeRun(key: seq<byte>, data: seq<byte>)
    returns (out: seq<byte>, ts: seq<seq<nat>>, js: seq<nat>)
    requires key != []
    ensures CipherRun(key, data, out, ts, js)
    decreases |data|
  {
    if data == [] {
      ts, js := Begun(key, 512);
      out := [];
    } else {
      var m := |data| - 1;
      out, ts, js := SomeRun(key, data[..m]);
      var after, k, crypt := EmittedNext(m, ts[512 + m], if m == 0 then 0 else js[512 + m], data[m]);
      RunMore(key, data[..m], out, ts, js, data[m], crypt, after, k);
      out, ts, js := out + [crypt], ts + [after], js + [k];
      assert data[..m] + [data[m]] == data;
    }
  }

  /** The cipher's output is that of such a run, and no other output is. */
  lemma CryptIff(key: seq<byte>, data: seq<byte>, out: seq<byte>)
    requires key != []
    ensures (exists ts, js :: CipherRun(key, data, out, ts, js)) <==> out == Rc4(key, data)
  {
    var own, ps, qs := SomeRun(key, data);
    RunGives(key, data, own, ps, qs);
    if exists ts, js :: CipherRun(key, data, out, ts, js) {
      var ts, js :| CipherRun(key, data, out, ts, js);
      RunGives(key, data, out, ts, js);
    }
  }

  /** A run of column values: each is cut to its low byte, and the bytes go through the cipher as one. */
  lemma ColumnsAre(key: seq<byte>, values: seq<int>) returns (data: seq<byte>, ts: seq<seq<nat>>, js: seq<nat>)
    requires key != []
    ensures |data| == |values| && forall k | 0 <= k < |data| :: data[k] as int == values[k] % 256
    ensures exists out | CipherRun(key, data, out, ts, js) ::
              var columns := ColumnValues(Rc4(key, ColumnBytes(values)));
              |columns| == |out| && forall k | 0 <= k < |out| :: columns[k] == out[k] as int
  {
    data := ColumnBytes(values);
    forall k | 0 <= k < |data| ensures data[k] as int == values[k] % 256 { IntFromTo(values[k] % 256); }
    var out;
    out, ts, js := SomeRun(key, data);
    RunGives(key, data, out, ts, js);
  }

  // ---- The key ----

  /** One modifier more: at most its first seven characters count. */
  predicate KeyStep(key: seq<byte>, modifier: seq<byte>, next: seq<byte>) {
    && |key| == |next| == 8
    && forall i | 0 <= i < 8 :: next[i] == if i < 7 && i < |modifier| then key[i] ^ modifier[i] else key[i]
  }

  /** The keys as one modifier after the other is mixed in, from the eight fixed bytes. */
  predicate KeyRun(modifiers: seq<seq<byte>>, ks: seq<seq<byte>>) {
    && |ks| == |modifiers| + 1
    && ks[0] == [80, 23, 14, 120, 48, 223, 77, 121]
    && forall m | 0 <= m < |modifiers| :: KeyStep(ks[m], modifiers[m], ks[m + 1])
  }

  lemma KeyStepIs(key: seq<byte>, modifier: seq<byte>, next: seq<byte>)
    requires |key| == 8
    ensures KeyStep(key, modifier, next) <==> next == Modified(key, modifier)
  {
    if KeyStep(key, modifier, next) { assert next == Modified(key, modifier); }
  }

  lemma DerivedLast(key: seq<byte>, modifiers: seq<seq<byte>>, last: seq<byte>)
    requires |key| >= 7
    ensures DerivedKey(key, modifiers + [last]) == Modified(DerivedKey(key, modifiers), last)
    decreases |modifiers|
  {
    if modifiers == [] {
      assert [] + [last] == [last] && [last][1..] == [];
    } else {
      assert (modifiers + [last])[1..] == modifiers[1..] + [last];
      DerivedLast(Modified(key, modifiers[0]), modifiers[1..], last);
    }
  }

  lemma {:induction false} KeysAre(modifiers: seq<seq<byte>>, ks: seq<seq<byte>>, m: nat)
    requires KeyRun(modifiers, ks) && m < |ks|
    ensures ks[m] == DerivedKey(BASE_KEY, modifiers[..m])
  {
    if m > 0 {
      KeysAre(modifiers, ks, m - 1);
      assert modifiers[..m] == modifiers[..m - 1] + [modifiers[m - 1]];
      DerivedLast(BASE_KEY, modifiers[..m - 1], modifiers[m - 1]);
      assert KeyStep(ks[m - 1], modifiers[m - 1], ks[m]);
      KeyStepIs(ks[m - 1], modifiers[m - 1], ks[m]);
    }
  }

  lemma {:induction false} KeysEight(modifiers: seq<seq<byte>>, ks: seq<seq<byte>>, m: nat)
    requires KeyRun(modifiers, ks) && m < |ks|
    ensures |ks[m]| == 8
  {
    if m > 0 { assert KeyStep(ks[m - 1], modifiers[m - 1], ks[m]); }
  }

  lemma KeyRunMore(modifiers: seq<seq<byte>>, ks: seq<seq<byte>>, last: seq<byte>, next: seq<byte>)
    requires KeyRun(modifiers, ks) && KeyStep(ks[|modifiers|], last, next)
    ensures KeyRun(modifiers + [last], ks + [next])
  {
    var ms, more := modifiers + [last], ks + [next];
    forall m | 0 <= m < |ms| ensures KeyStep(more[m], ms[m], more[m + 1]) {
      if m < |modifiers| { assert KeyStep(ks[m], modifiers[m], ks[m + 1]); }
    }
  }

  lemma {:induction false} KeysExist(modifiers: seq<seq<byte>>) returns (ks: seq<seq<byte>>)
    ensures KeyRun(modifiers, ks)
    decreases |modifiers|
  {
    if modifiers == [] {
      ks := [BASE_KEY];
    } else {
      var n := |modifiers| - 1;
      ks := KeysExist(modifiers[..n]);
      KeysEight(modifiers[..n], ks, n);
      var next := Modified(ks[n], modifiers[n]);
      KeyStepIs(ks[n], modifiers[n], next);
      KeyRunMore(modifiers[..n], ks, modifiers[n], next);
      ks := ks + [next];
      assert modifiers[..n] + [modifiers[n]] == modifiers;
    }
  }

  /** The derived key is the last of such a run, and no other key is. */
  lemma DerivedKeyIff(modifiers: seq<seq<byte>>, key: seq<byte>)
    ensures (exists ks :: KeyRun(modifiers, ks) && ks[|modifiers|] == key) <==> key == DerivedKey(BASE_KEY, modifiers)
  {
    var own := KeysExist(modifiers);
    assert modifiers[..|modifiers|] == modifiers;
    KeysAre(modifiers, own, |modifiers|);
    if exists ks :: KeyRun(modifiers, ks) && ks[|modifiers|] == key {
      var ks :| KeyRun(modifiers, ks) && ks[|modifiers|] == key;
      KeysAre(modifiers, ks, |modifiers|);
    }
  }
}

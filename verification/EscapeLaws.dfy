/** What `crypt_string` writes and reads, character by character (src/elk_programmer/storage/elksafe.py). */
module EscapeLaws {
  import opened Bytes
  import opened ElkSafe
  import opened CipherLaws
  import opened NulEscape

  // ---- Escaping ----

  /** Byte k is written from p[k] on: a NUL as seven characters, any other byte as its character. */
  predicate WrittenAt(data: seq<byte>, p: seq<nat>, text: string, k: nat)
    requires |p| == |data| + 1 && k < |data|
  {
    && p[k] <= p[k + 1] <= |text|
    && if data[k] == 0 then text[p[k]..p[k + 1]] == "[ESC]00"
       else p[k + 1] == p[k] + 1 && text[p[k]] as int == data[k] as int
  }

  predicate Escapes(data: seq<byte>, p: seq<nat>, text: string) {
    && |p| == |data| + 1 && p[0] == 0 && p[|data|] == |text|
    && forall k | 0 <= k < |data| :: WrittenAt(data, p, text, k)
  }

  lemma EscapesMore(data: seq<byte>, p: seq<nat>, text: string, b: byte, more: string)
    requires Escapes(data, p, text)
    requires if b == 0 then more == "[ESC]00" else |more| == 1 && more[0] as int == b as int
    ensures Escapes(data + [b], p + [|text + more|], text + more)
  {
    var all, q, out := data + [b], p + [|text + more|], text + more;
    forall k | 0 <= k < |all| ensures WrittenAt(all, q, out, k) {
      if k < |data| {
        assert WrittenAt(data, p, text, k);
        assert out[p[k]..p[k + 1]] == text[p[k]..p[k + 1]];
      } else {
        assert out[|text|..|out|] == more;
      }
    }
  }

  lemma {:induction false} EscapeSnoc(data: seq<byte>, b: byte)
    ensures Escape(data + [b]) == Escape(data) + if b == 0 then "[ESC]00" else [ToInt(b) as char]
    decreases |data|
  {
    if data == [] {
      assert [] + [b] == [b] && [b][1..] == [] && Escape([]) == "";
    } else {
      assert (data + [b])[1..] == data[1..] + [b];
      EscapeSnoc(data[1..], b);
    }
  }

  lemma {:induction false} EscapeIs(data: seq<byte>) returns (p: seq<nat>)
    ensures Escapes(data, p, Escape(data))
    decreases |data|
  {
    p := [0];
    if data != [] {
      var n := |data| - 1;
      p := EscapeIs(data[..n]);
      assert data[..n] + [data[n]] == data;
      EscapeSnoc(data[..n], data[n]);
      EscapesMore(data[..n], p, Escape(data[..n]), data[n],
                  if data[n] == 0 then "[ESC]00" else [ToInt(data[n]) as char]);
      p := p + [|Escape(data)|];
    }
  }

  // ---- Unescaping ----

  /** Byte k is read from q[k] on: seven characters that stand for a NUL, if they come next, and otherwise
      the low byte of one character. */
  predicate ReadAt(text: string, q: seq<nat>, raw: seq<byte>, k: nat)
    requires |q| == |raw| + 1 && k < |raw|
  {
    && q[k] < |text|
    && if "[ESC]00" <= text[q[k]..] then q[k + 1] == q[k] + 7 && raw[k] == 0
       else q[k + 1] == q[k] + 1 && raw[k] as int == text[q[k]] as int % 256
  }

  predicate Unescapes(text: string, q: seq<nat>, raw: seq<byte>) {
    && |q| == |raw| + 1 && q[|raw|] == |text|
    && forall k | 0 <= k < |raw| :: ReadAt(text, q, raw, k)
  }

  lemma CharByte(c: char)
    ensures ByteOfChar(c) as int == c as int % 256
  {
    IntFromTo(c as int % 256);
  }

  lemma UnescapesFirst(text: string, start: nat, q: seq<nat>, b: byte, raw: seq<byte>)
    requires start < |text| && Unescapes(text, q, raw)
    requires if "[ESC]00" <= text[start..] then q[0] == start + 7 && b == 0
             else q[0] == start + 1 && b as int == text[start] as int % 256
    ensures Unescapes(text, [start] + q, [b] + raw)
  {
    forall k | 0 <= k < |raw| + 1 ensures ReadAt(text, [start] + q, [b] + raw, k) {
      if k > 0 { assert ReadAt(text, q, raw, k - 1); }
    }
  }

  lemma {:induction false} UnescapeFrom(text: string, start: nat) returns (q: seq<nat>)
    requires start <= |text|
    ensures Unescapes(text, q, Unescape(text[start..])) && q[0] == start
    decreases |text| - start
  {
    q := [start];
    if start < |text| {
      var rest := text[start..];
      var b := if ESCAPE <= rest then 0 else ByteOfChar(rest[0]);
      var n := if ESCAPE <= rest then 7 else 1;
      CharByte(rest[0]);
      assert rest[n..] == text[start + n..];
      q := UnescapeFrom(text, start + n);
      UnescapesFirst(text, start, q, b, Unescape(text[start + n..]));
      q := [start] + q;
    }
  }

  /** `crypt_string` reads the text so, sends the bytes through the cipher as one, and writes them so. */
  lemma CryptStringIs(key: seq<byte>, text: string)
    returns (q: seq<nat>, raw: seq<byte>, out: seq<byte>, ts: seq<seq<nat>>, js: seq<nat>, p: seq<nat>)
    requires key != []
    ensures Unescapes(text, q, raw) && q[0] == 0
    ensures CipherRun(key, raw, out, ts, js)
    ensures Escapes(out, p, CryptString(key, text))
  {
    q := UnescapeFrom(text, 0);
    assert text[0..] == text;
    raw := Unescape(text);
    out, ts, js := SomeRun(key, raw);
    RunGives(key, raw, out, ts, js);
    p := EscapeIs(out);
  }
}

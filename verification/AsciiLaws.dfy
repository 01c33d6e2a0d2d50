/** What an ASCII frame is, character by character, and which frames a buffer holds
    (custom_components/elkm1/helpers/elk/message.py, custom_components/elkm1/helpers/framing.py). */
module AsciiLaws {
  import opened Bytes
  import opened Positions
  import opened AsciiFrames
  import opened AsciiStream

  // ---- Numbers in hexadecimal ----

  /** An upper-case hexadecimal digit. */
  predicate UpperDigit(c: char, d: int) {
    0 <= d < 16 && c as int == if d < 10 then 48 + d else 55 + d
  }

  /** The digits ds of a number, the most significant first: at least two, and no leading zero more. */
  predicate HexForm(s: string, ds: seq<int>, n: int) {
    && |s| == |ds| >= 2 && (|ds| > 2 ==> ds[0] != 0)
    && (forall i | 0 <= i < |s| :: UpperDigit(s[i], ds[i]))
    && Horner(ds) == n
  }

  function Horner(ds: seq<int>): int {
    if ds == [] then 0 else 16 * Horner(ds[..|ds| - 1]) + ds[|ds| - 1]
  }

  lemma HornerLast(ds: seq<int>, d: int)
    ensures Horner(ds + [d]) == 16 * Horner(ds) + d
  {
    assert (ds + [d])[..|ds|] == ds;
  }

  predicate DigitsOf(s: string, ds: seq<int>) {
    |s| == |ds| && forall i | 0 <= i < |s| :: UpperDigit(s[i], ds[i])
  }

  lemma {:induction false} HexDigitsAre(n: nat) returns (ds: seq<int>)
    ensures DigitsOf(HexDigits(n), ds) && Horner(ds) == n && ds != [] && (n > 0 ==> ds[0] > 0)
    ensures n >= 16 ==> |ds| >= 2
    ensures n < 16 ==> ds == [n]
  {
    if n < 16 {
      ds := [n];
      assert [] + [n] == [n];
      HornerLast([], n);
    } else {
      var more := HexDigitsAre(n / 16);
      ds := more + [n % 16];
      HornerLast(more, n % 16);
    }
  }

  lemma Hex2Is(n: nat) returns (ds: seq<int>)
    ensures HexForm(Hex2(n), ds, n)
  {
    ds := HexDigitsAre(n);
    if n < 16 {
      ds := [0, n];
      assert ds[..1] == [0] && [0][..0] == [];
      assert Horner([0]) == 0;
    }
  }

  // ---- Sums ----

  /** t holds the sums of the first characters. */
  predicate Sums(s: string, t: seq<int>) {
    |t| == |s| + 1 && t[0] == 0 && forall i | 0 <= i < |s| :: t[i + 1] == t[i] + s[i] as int
  }

  lemma {:induction false} SumIs(s: string) returns (t: seq<int>)
    ensures Sums(s, t) && t[|s|] == Sum(s)
    decreases |s|
  {
    t := [0];
    if s != "" {
      var n := |s| - 1;
      t := SumIs(s[..n]);
      t := t + [t[n] + s[n] as int];
      assert s == s[..n] + [s[n]];
      SumConcat(s[..n], [s[n]]);
      assert [s[n]][1..] == "" && Sum("") == 0 && Sum([s[n]]) == s[n] as int;
    }
  }

  // ---- Finalised payloads ----

  /** A payload is framed by its length plus four in hexadecimal before it, and behind it "00" and two
      hexadecimal digits that make the sum of all characters before them and their value a multiple of 256. */
  lemma FinalizedIs(payload: string)
    returns (size: string, sizes: seq<int>, check: string, checks: seq<int>, t: seq<int>, c: int)
    ensures Finalize(payload) == size + payload + "00" + check
    ensures HexForm(size, sizes, |payload| + 4)
    ensures |check| == 2 && HexForm(check, checks, c)
    ensures Sums(size + payload + "00", t) && (t[|t| - 1] + c) % 256 == 0
  {
    var unsized := payload + "00";
    size := Hex2(|unsized| + 2);
    sizes := Hex2Is(|unsized| + 2);
    var body := size + unsized;
    assert body == size + payload + "00";
    c := (255 - Sum(body) % 256 + 1) % 256;
    check := Hex2(c);
    checks := Hex2Is(c);
    HexRoundTrip(c);
    t := SumIs(body);
    ComplementCancels(Sum(body));
  }

  // ---- The validators ----

  /** A hexadecimal digit of either case. */
  predicate AnyDigit(c: char, d: int) {
    UpperDigit(c, d) || (10 <= d < 16 && c as int == 87 + d)
  }

  predicate Blank(c: char) {
    var n := c as int;
    n == 0x20 || 0x09 <= n <= 0x0D || 0x1C <= n <= 0x1F || n == 0x85 || n == 0xA0
  }

  /** What Python reads in at most two characters with base sixteen: one digit, two, or one with a sign or
      with white space on either side. */
  predicate ReadsAs(s: string, n: int) {
    || (|s| == 1 && AnyDigit(s[0], n))
    || (|s| == 2 && exists a, b | 0 <= a < 16 && 0 <= b < 16 ::
          AnyDigit(s[0], a) && AnyDigit(s[1], b) && n == 16 * a + b)
    || (|s| == 2 && s[0] == '-' && AnyDigit(s[1], -n))
    || (|s| == 2 && (s[0] == '+' || Blank(s[0])) && AnyDigit(s[1], n))
    || (|s| == 2 && Blank(s[1]) && AnyDigit(s[0], n))
  }

  lemma DigitIs(c: char, d: int)
    ensures HexValue(c) == Some(d) <==> AnyDigit(c, d)
    ensures HexValue(c).Some? ==> 0 <= HexValue(c).value < 16 && !Blank(c) && c != '+' && c != '-'
  {}

  lemma BaseSixteen(s: string, n: int)
    requires |s| <= 2
    ensures IntBase16(s) == Some(n) <==> ReadsAs(s, n)
  {
    if |s| == 1 {
      DigitIs(s[0], n);
    } else if |s| == 2 {
      TwoRead(s, n);
    }
  }

  lemma TwoRead(s: string, n: int)
    requires |s| == 2
    ensures IntBase16(s) == Some(n) <==> ReadsAs(s, n)
  {
    forall d ensures HexValue(s[0]) == Some(d) <==> AnyDigit(s[0], d) { DigitIs(s[0], d); }
    forall d ensures HexValue(s[1]) == Some(d) <==> AnyDigit(s[1], d) { DigitIs(s[1], d); }
    DigitIs(s[0], n);
    DigitIs(s[1], n);
    if HexValue(s[0]).Some? && HexValue(s[1]).Some? {
      assert AnyDigit(s[0], HexValue(s[0]).value) && AnyDigit(s[1], HexValue(s[1]).value);
    }
  }

  /** The last two characters read as a number that makes this sum a multiple of 256. */
  ghost predicate Cancels(tail: string, sum: int) {
    exists c :: ReadsAs(tail, c) && (sum + c) % 256 == 0
  }

  lemma CancelsIff(tail: string, sum: int)
    requires |tail| <= 2
    ensures Cancels(tail, sum) <==> IntBase16(tail).Some? && (sum + IntBase16(tail).value) % 256 == 0
  {
    if Cancels(tail, sum) {
      var c :| ReadsAs(tail, c) && (sum + c) % 256 == 0;
      BaseSixteen(tail, c);
    }
    if IntBase16(tail).Some? { BaseSixteen(tail, IntBase16(tail).value); }
  }

  /** A text is a valid frame if and only if its first two characters read as its length less two, and its
      last two as a number that makes the sum of the others a multiple of 256. */
  lemma ValidIff(m: string, t: seq<int>, head: string, tail: string)
    requires |m| >= 2 && Sums(m[..|m| - 2], t) && head == m[..2] && tail == m[|m| - 2..]
    ensures IsValid(m) <==> ReadsAs(head, |m| - 2) && Cancels(tail, t[|m| - 2])
    ensures HasValidLengthAndChecksum(m) <==> IsValid(m) && |m| >= 6
  {
    SumsUnique(m[..|m| - 2], t);
    BaseSixteen(head, |m| - 2);
    CancelsIff(tail, t[|m| - 2]);
  }

  lemma {:induction false} SumsUnique(s: string, t: seq<int>)
    requires Sums(s, t)
    ensures t[|s|] == Sum(s)
    decreases |s|
  {
    if s != "" {
      var n := |s| - 1;
      SumsUnique(s[..n], t[..n + 1]);
      assert s == s[..n] + [s[n]];
      SumConcat(s[..n], [s[n]]);
      assert [s[n]][1..] == "" && Sum("") == 0 && Sum([s[n]]) == s[n] as int;
    }
  }

  /** A shorter text is none. */
  lemma ShortIsInvalid(m: string)
    requires |m| < 2
    ensures !IsValid(m) && !HasValidLengthAndChecksum(m)
  {
    if m != "" {
      DigitIs(m[0], |m| - 2);
    }
  }

  // ---- The frames of a buffer ----

  predicate Ends(c: char) { c as int == 13 || c as int == 10 }

  /** Frame k is what stands from a[k] to b[k]: not empty, without CR or LF, between the start of the buffer
      or a CR or LF and another. */
  predicate FrameAt(s: string, a: int, b: int) {
    && 0 <= a < b < |s|
    && (a == 0 || Ends(s[a - 1])) && Ends(s[b])
    && forall i | a <= i < b :: !Ends(s[i])
  }

  /** Each of these frames starts behind position n. */
  predicate Listed(s: string, n: int, a: seq<int>, b: seq<int>, frames: seq<string>) {
    && |a| == |b| == |frames|
    && (forall k | 0 <= k < |a| :: a[k] > n && FrameAt(s, a[k], b[k]) && frames[k] == s[a[k]..b[k]])
    && forall i, k | 0 <= i < k < |a| :: a[i] < a[k]
  }

  ghost predicate AllListed(s: string, n: int, a: seq<int>) {
    forall x, y | x > n && FrameAt(s, x, y) :: x in a
  }

  /** What is left stands behind the last CR or LF. */
  predicate RestOf(s: string, rest: string) {
    && |rest| <= |s| && rest == s[|s| - |rest|..]
    && (rest == s || Ends(s[|s| - |rest| - 1]))
    && forall i | 0 <= i < |rest| :: !Ends(rest[i])
  }

  /** The frames are all there are, in order. */
  ghost predicate FramesOf(s: string, a: seq<int>, b: seq<int>, frames: seq<string>, rest: string) {
    Listed(s, -1, a, b, frames) && AllListed(s, -1, a) && RestOf(s, rest)
  }

  lemma {:induction false} SplitIs(s: string) returns (a: seq<int>, b: seq<int>)
    ensures FramesOf(s, a, b, Split(s).frames, Split(s).rest)
    decreases |s|
  {
    a, b := [], [];
    var n := RunLength(s);
    if n == |s| {
      PlainHasNone(s);
    } else {
      var more := s[n + 1..];
      var x, y := SplitIs(more);
      RunThen(s, more, n, x, y, Split(more));
      a := (if n == 0 then [] else [0]) + Shifted(x, n + 1);
      b := (if n == 0 then [] else [n]) + Shifted(y, n + 1);
    }
  }

  lemma PlainHasNone(s: string)
    requires Plain(s)
    ensures FramesOf(s, [], [], [], s)
  {
    forall i | 0 <= i < |s| ensures !Ends(s[i]) { assert !IsTerminator(s[i]); }
    assert s[0..] == s;
  }

  lemma MovedFrame(s: string, more: string, n: nat, x: int, y: int)
    requires n < |s| && Ends(s[n]) && more == s[n + 1..]
    ensures FrameAt(more, x, y) <==> x >= 0 && FrameAt(s, x + n + 1, y + n + 1)
    ensures FrameAt(more, x, y) ==> more[x..y] == s[x + n + 1..y + n + 1]
  {
    assert forall i | 0 <= i < |more| :: more[i] == s[i + n + 1];
    if x >= 0 && FrameAt(s, x + n + 1, y + n + 1) {
      assert forall i | x <= i < y :: more[i] == s[i + n + 1] && !Ends(s[i + n + 1]);
    }
  }

  lemma LaterListed(s: string, more: string, n: nat, x: seq<int>, y: seq<int>, frames: seq<string>)
    requires n < |s| && Ends(s[n]) && more == s[n + 1..] && Listed(more, -1, x, y, frames)
    ensures Listed(s, n, Shifted(x, n + 1), Shifted(y, n + 1), frames)
  {
    forall k | 0 <= k < |x| ensures FrameAt(s, x[k] + n + 1, y[k] + n + 1) && frames[k] == s[x[k] + n + 1..y[k] + n + 1]
    {
      MovedFrame(s, more, n, x[k], y[k]);
    }
  }

  lemma LaterAllListed(s: string, more: string, n: nat, x: seq<int>)
    requires n < |s| && Ends(s[n]) && more == s[n + 1..] && AllListed(more, -1, x)
    ensures AllListed(s, n, Shifted(x, n + 1))
  {
    forall u, v | u > n && FrameAt(s, u, v) ensures u in Shifted(x, n + 1) {
      MovedFrame(s, more, n, u - n - 1, v - n - 1);
      InShifted(x, n + 1, u);
    }
  }

  lemma LaterRest(s: string, more: string, n: nat, rest: string)
    requires n < |s| && Ends(s[n]) && more == s[n + 1..] && RestOf(more, rest)
    ensures RestOf(s, rest)
  {
    assert forall i | 0 <= i < |more| :: more[i] == s[i + n + 1];
  }

  /** The first run of a buffer is a frame if it is not empty, and the only one that starts before its end. */
  lemma FirstFrame(s: string, n: nat, x: int, y: int)
    requires n < |s| && Ends(s[n]) && forall i | 0 <= i < n :: !Ends(s[i])
    ensures FrameAt(s, x, y) && x <= n ==> x == 0 && y == n
    ensures n > 0 ==> FrameAt(s, 0, n)
  {}

  lemma FirstThenAll(s: string, n: nat, a: seq<int>)
    requires n < |s| && Ends(s[n]) && (forall i | 0 <= i < n :: !Ends(s[i])) && AllListed(s, n, a)
    ensures AllListed(s, -1, (if n == 0 then [] else [0]) + a)
  {
    forall x, y | x > -1 && FrameAt(s, x, y) ensures x in (if n == 0 then [] else [0]) + a {
      FirstFrame(s, n, x, y);
    }
  }

  lemma FirstThenListed(s: string, n: nat, a: seq<int>, b: seq<int>, frames: seq<string>)
    requires n < |s| && Ends(s[n]) && (forall i | 0 <= i < n :: !Ends(s[i])) && Listed(s, n, a, b, frames)
    ensures if n == 0 then Listed(s, -1, a, b, frames)
            else Listed(s, -1, [0] + a, [n] + b, [s[..n]] + frames)
  {
    FirstFrame(s, n, 0, n);
  }

  lemma RunThen(s: string, more: string, n: nat, x: seq<int>, y: seq<int>, e: Extracted)
    requires n < |s| && IsTerminator(s[n]) && Plain(s[..n]) && more == s[n + 1..]
    requires FramesOf(more, x, y, e.frames, e.rest)
    ensures var all := Prepend(s[..n], e);
            var a := (if n == 0 then [] else [0]) + Shifted(x, n + 1);
            var b := (if n == 0 then [] else [n]) + Shifted(y, n + 1);
            FramesOf(s, a, b, all.frames, all.rest)
  {
    forall i | 0 <= i < n ensures !Ends(s[i]) { assert !IsTerminator(s[..n][i]); }
    LaterListed(s, more, n, x, y, e.frames);
    LaterAllListed(s, more, n, x);
    LaterRest(s, more, n, e.rest);
    FirstThenListed(s, n, Shifted(x, n + 1), Shifted(y, n + 1), e.frames);
    FirstThenAll(s, n, Shifted(x, n + 1));
    assert [] + Shifted(x, n + 1) == Shifted(x, n + 1) && [] + Shifted(y, n + 1) == Shifted(y, n + 1);
  }

  // ---- The limits ----

  /** Of the frames of a read exactly those of at most 1024 characters are kept, in order: p says which. */
  predicate KeepsShort(frames: seq<string>, p: seq<int>, kept: seq<string>) {
    && |p| == |kept| && Rising(p, |frames|)
    && (forall k | 0 <= k < |p| :: kept[k] == frames[p[k]] && |kept[k]| <= 1024)
    && forall i | 0 <= i < |frames| && |frames[i]| <= 1024 :: i in p
  }

  lemma KeepsMore(frames: seq<string>, p: seq<int>, kept: seq<string>, last: string)
    requires KeepsShort(frames, p, kept)
    ensures if |last| <= 1024 then KeepsShort(frames + [last], p + [|frames|], kept + [last])
            else KeepsShort(frames + [last], p, kept)
  {
    var all := frames + [last];
    RisingMore(p, |frames|);
    forall i | 0 <= i < |frames| && |all[i]| <= 1024 ensures i in p { assert all[i] == frames[i]; }
  }

  lemma KeptFirst(first: string, more: seq<string>)
    ensures Kept([first] + more) == (if |first| > 1024 then [] else [first]) + Kept(more)
  {
    assert ([first] + more)[1..] == more;
  }

  lemma {:induction false} KeptSnoc(frames: seq<string>, last: string)
    ensures Kept(frames + [last]) == Kept(frames) + if |last| <= 1024 then [last] else []
    decreases |frames|
  {
    if frames == [] {
      KeptFirst(last, []);
      assert [] + [last] == [last] + [];
    } else {
      var first, more := frames[0], frames[1..];
      KeptSnoc(more, last);
      KeptFirst(first, more + [last]);
      KeptFirst(first, more);
      assert frames == [first] + more && frames + [last] == [first] + (more + [last]);
    }
  }

  lemma {:induction false} KeptIs(frames: seq<string>) returns (p: seq<int>)
    ensures KeepsShort(frames, p, Kept(frames))
    decreases |frames|
  {
    p := [];
    if frames != [] {
      var n := |frames| - 1;
      p := KeptIs(frames[..n]);
      assert frames[..n] + [frames[n]] == frames;
      KeepsMore(frames[..n], p, Kept(frames[..n]), frames[n]);
      KeptSnoc(frames[..n], frames[n]);
      assert Kept(frames[..n]) + [] == Kept(frames[..n]);
      if |frames[n]| <= 1024 { p := p + [n]; }
    }
  }

  /** One read adds its characters to what was left, takes the frames of all of it, hands on those of at
      most 1024 characters, and keeps what is left of at most 1024 characters, or else nothing. */
  lemma ReadIs(buffer: string, chunk: string)
    returns (a: seq<int>, b: seq<int>, frames: seq<string>, rest: string, p: seq<int>)
    ensures FramesOf(buffer + chunk, a, b, frames, rest)
    ensures KeepsShort(frames, p, ReadChunk(buffer, chunk).frames)
    ensures ReadChunk(buffer, chunk).rest == if |rest| <= 1024 then rest else ""
  {
    a, b := SplitIs(buffer + chunk);
    frames, rest := Split(buffer + chunk).frames, Split(buffer + chunk).rest;
    p := KeptIs(frames);
  }

  /** An empty read ends the stream: what comes after it is never looked at. */
  lemma {:induction false} EmptyReadEnds(buffer: string, before: seq<string>, later: seq<string>)
    ensures ReadAll(buffer, before + [""] + later) == ReadAll(buffer, before)
    decreases |before|
  {
    var all := before + [""] + later;
    if before != [] && before[0] != "" {
      assert all[1..] == before[1..] + [""] + later;
      EmptyReadEnds(ReadChunk(buffer, before[0]).rest, before[1..], later);
    }
  }
}

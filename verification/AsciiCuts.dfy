/** Exactly when the frames of a stream do not depend on how the reads cut it
    (the buffer limit of custom_components/elkm1/helpers/transport.py). */
module AsciiCuts {
  import opened Bytes
  import opened AsciiStream

  /** Reads that deliver `s`: none empty, none of more than 500 characters. */
  predicate Cuts(chunks: seq<string>, s: string) {
    Concat(chunks) == s && forall c | c in chunks :: 0 < |c| <= 500
  }

  /** No run of characters that a terminator follows is more than one over the frame limit of 1024. */
  predicate TerminatedRunsFit(s: string) {
    forall i, j | 0 <= i <= j < |s| && IsTerminator(s[j]) && Plain(s[i..j]) :: j - i <= 1025
  }

  // ---- Runs that fit: the cuts do not matter ----

  /** What the buffer holds when `run` follows the last terminator: all of it, or nothing when it
      has just passed the limit, or anything once it is too long to be terminated. */
  predicate Tracks(buffer: string, run: string) {
    && Plain(run)
    && (|run| <= MAX_FRAME_CHARS ==> buffer == run)
    && (|run| == MAX_FRAME_CHARS + 1 ==> buffer == "")
    && (|run| > MAX_FRAME_CHARS + 1 ==> Plain(buffer))
  }

  lemma FitParts(a: string, b: string)
    requires TerminatedRunsFit(a + b)
    ensures TerminatedRunsFit(a) && TerminatedRunsFit(b)
  {
    var s := a + b;
    forall i, j | 0 <= i <= j < |a| && IsTerminator(a[j]) && Plain(a[i..j]) ensures j - i <= MAX_FRAME_CHARS + 1 {
      assert s[i..j] == a[i..j] && s[j] == a[j];
    }
    forall i, j | 0 <= i <= j < |b| && IsTerminator(b[j]) && Plain(b[i..j]) ensures j - i <= MAX_FRAME_CHARS + 1 {
      assert s[|a| + i..|a| + j] == b[i..j] && s[|a| + j] == b[j];
    }
  }

  /** A run that ends in `b` is as long as what precedes it there and the head of `b` together. */
  lemma RunEndsIn(run: string, b: string)
    requires Plain(run) && TerminatedRunsFit(run + b) && RunLength(b) < |b|
    ensures |run| + RunLength(b) <= MAX_FRAME_CHARS + 1
    ensures Split(run + b) == Prepend(run + b[..RunLength(b)], Split(b[RunLength(b) + 1..]))
  {
    var n := RunLength(b);
    PlainConcat(run, b[..n]);
    Pieces(run, b, n);
    SplitTerminated(run + b[..n], b[n], b[n + 1..]);
  }

  lemma Pieces(a: string, b: string, n: nat)
    requires n < |b|
    ensures a + b == (a + b[..n]) + [b[n]] + b[n + 1..]
    ensures (a + b)[0..|a| + n] == a + b[..n] && (a + b)[|a| + n] == b[n]
  {}

  lemma {:induction false} RestIsSuffix(s: string) returns (k: nat)
    ensures k <= |s| && Split(s).rest == s[k..]
    decreases |s|
  {
    var n := RunLength(s);
    if n == |s| {
      k := 0;
    } else {
      var more := s[n + 1..];
      var m := RestIsSuffix(more);
      k := n + 1 + m;
      assert more[m..] == s[k..];
    }
  }

  lemma {:induction false} KeptConcat(a: seq<string>, b: seq<string>)
    ensures Kept(a + b) == Kept(a) + Kept(b)
  {
    if a == [] {
      assert a + b == b;
    } else {
      assert (a + b)[1..] == a[1..] + b;
      KeptConcat(a[1..], b);
    }
  }

  /** The buffer after a read, given what really follows the last terminator. */
  lemma LimitedTracks(run: string)
    requires Plain(run)
    ensures Tracks(if |run| > MAX_FRAME_CHARS then "" else run, run)
  {}

  lemma PlainChunk(buffer: string, run: string, chunk: string)
    requires Tracks(buffer, run) && chunk != "" && Plain(chunk)
    ensures ReadChunk(buffer, chunk).frames == [] && Split(run + chunk) == Extracted([], run + chunk)
    ensures Tracks(ReadChunk(buffer, chunk).rest, run + chunk)
  {
    PlainConcat(run, chunk);
    SplitPlain(run + chunk);
    if Plain(buffer) { PlainRead(buffer, chunk); }
  }

  lemma DropOverlong(run: string, e: Extracted)
    requires |run| == MAX_FRAME_CHARS + 1
    ensures Kept(Prepend(run, e).frames) == Kept(e.frames) && Prepend(run, e).rest == e.rest
  {
    assert ([run] + e.frames)[1..] == e.frames;
  }

  lemma OverlongChunk(run: string, chunk: string)
    requires Plain(run) && |run| == MAX_FRAME_CHARS + 1 && TerminatedRunsFit(run + chunk)
    requires RunLength(chunk) < |chunk|
    ensures Split(chunk).rest == Split(run + chunk).rest
    ensures Kept(Split(chunk).frames) == Kept(Split(run + chunk).frames)
  {
    RunEndsIn(run, chunk);
    assert run + chunk[..0] == run;
    DropOverlong(run, Split(chunk[1..]));
  }

  lemma PlainOrEnds(chunk: string)
    ensures Plain(chunk) <==> RunLength(chunk) == |chunk|
  {
    assert chunk[..|chunk|] == chunk;
  }

  lemma ReadTracks(buffer: string, run: string, chunk: string)
    requires Tracks(buffer, run) && chunk != "" && TerminatedRunsFit(run + chunk)
    ensures ReadChunk(buffer, chunk).frames == Kept(Split(run + chunk).frames)
    ensures Tracks(ReadChunk(buffer, chunk).rest, Split(run + chunk).rest)
  {
    RestIsPlain(run + chunk);
    LimitedTracks(Split(run + chunk).rest);
    PlainOrEnds(chunk);
    if Plain(chunk) {
      PlainChunk(buffer, run, chunk);
    } else if |run| == MAX_FRAME_CHARS + 1 {
      assert "" + chunk == chunk;
      OverlongChunk(run, chunk);
    } else if |run| > MAX_FRAME_CHARS + 1 {
      RunEndsIn(run, chunk);
    }
  }

  /** One read, with what it leaves for the reads after it. */
  lemma FittingStep(buffer: string, run: string, chunk: string, later: string)
    requires Tracks(buffer, run) && chunk != "" && TerminatedRunsFit(run + (chunk + later))
    ensures var e, first := Split(run + chunk), ReadChunk(buffer, chunk);
            && first.frames == Kept(e.frames) && Tracks(first.rest, e.rest) && TerminatedRunsFit(e.rest + later)
            && Kept(Split(run + (chunk + later)).frames) == Kept(e.frames) + Kept(Split(e.rest + later).frames)
  {
    Associative(run, chunk, later);
    FitParts(run + chunk, later);
    ReadTracks(buffer, run, chunk);
    FitRest(run + chunk, later);
    KeptOfConcat(run + chunk, later);
  }

  lemma Associative<T>(a: seq<T>, b: seq<T>, c: seq<T>)
    ensures a + (b + c) == a + b + c
  {}

  lemma FitRest(now: string, later: string)
    requires TerminatedRunsFit(now + later)
    ensures TerminatedRunsFit(Split(now).rest + later)
  {
    var k := RestIsSuffix(now);
    assert now + later == now[..k] + (now[k..] + later);
    FitParts(now[..k], now[k..] + later);
  }

  lemma KeptOfConcat(now: string, later: string)
    ensures Kept(Split(now + later).frames) ==
            Kept(Split(now).frames) + Kept(Split(Split(now).rest + later).frames)
  {
    SplitConcat(now, later);
    KeptConcat(Split(now).frames, Split(Split(now).rest + later).frames);
  }

  lemma {:induction false} FittingFrames(buffer: string, run: string, chunks: seq<string>)
    requires Tracks(buffer, run) && "" !in chunks && TerminatedRunsFit(run + Concat(chunks))
    ensures ReadAll(buffer, chunks).frames == Kept(Split(run + Concat(chunks)).frames)
    decreases |chunks|
  {
    if chunks == [] {
      assert run + Concat(chunks) == run;
      SplitPlain(run);
    } else {
      FittingStep(buffer, run, chunks[0], Concat(chunks[1..]));
      FittingFrames(ReadChunk(buffer, chunks[0]).rest, Split(run + chunks[0]).rest, chunks[1..]);
    }
  }

  // ---- A run that does not fit: two cuts that differ ----

  /** Reads of one character each. */
  function Singles(s: string): (r: seq<string>)
    ensures |r| == |s|
  {
    seq(|s|, i requires 0 <= i < |s| => [s[i]])
  }

  lemma {:induction false} SinglesConcat(s: string)
    ensures Concat(Singles(s)) == s
  {
    if s != "" {
      assert Singles(s)[1..] == Singles(s[1..]);
      SinglesConcat(s[1..]);
    }
  }

  lemma {:induction false} ConcatJoin(a: seq<string>, b: seq<string>)
    ensures Concat(a + b) == Concat(a) + Concat(b)
  {
    if a == [] {
      assert a + b == b;
    } else {
      assert (a + b)[1..] == a[1..] + b;
      ConcatJoin(a[1..], b);
    }
  }

  lemma CutsJoin(a: seq<string>, s: string, b: seq<string>, t: string)
    requires Cuts(a, s) && Cuts(b, t)
    ensures Cuts(a + b, s + t)
  {
    ConcatJoin(a, b);
  }

  lemma SinglesCut(s: string)
    ensures Cuts(Singles(s), s)
  {
    SinglesConcat(s);
  }

  /** Reading `chunks` onto `buffer` delivers `frames` and leaves `rest`. */
  predicate Delivers(buffer: string, chunks: seq<string>, frames: seq<string>, rest: string) {
    "" !in chunks && ReadAll(buffer, chunks) == Extracted(frames, rest)
  }

  lemma DeliversFirst(buffer: string, chunk: string, frames: seq<string>, mid: string,
                      more: seq<string>, later: seq<string>, rest: string)
    requires chunk != "" && ReadChunk(buffer, chunk) == Extracted(frames, mid) && Delivers(mid, more, later, rest)
    ensures Delivers(buffer, [chunk] + more, frames + later, rest)
  {
    assert ([chunk] + more)[1..] == more;
  }

  lemma DeliversHead(buffer: string, a: seq<string>, f: seq<string>, mid: string)
    returns (first: seq<string>, m: string, more: seq<string>)
    requires a != [] && Delivers(buffer, a, f, mid)
    ensures a[0] != "" && ReadChunk(buffer, a[0]) == Extracted(first, m)
    ensures Delivers(m, a[1..], more, mid) && f == first + more
  {
    first, m := ReadChunk(buffer, a[0]).frames, ReadChunk(buffer, a[0]).rest;
    more := ReadAll(m, a[1..]).frames;
  }

  lemma HeadFirst<T>(a: seq<T>, b: seq<T>)
    requires a != []
    ensures [a[0]] + (a[1..] + b) == a + b
  {}

  lemma {:induction false} DeliversJoin(buffer: string, a: seq<string>, f: seq<string>, mid: string,
                                        b: seq<string>, g: seq<string>, rest: string)
    requires Delivers(buffer, a, f, mid) && Delivers(mid, b, g, rest)
    ensures Delivers(buffer, a + b, f + g, rest)
    decreases |a|
  {
    if a == [] {
      assert a + b == b && f + g == g;
    } else {
      var first, m, more := DeliversHead(buffer, a, f, mid);
      DeliversJoin(m, a[1..], more, mid, b, g, rest);
      DeliversFirst(buffer, a[0], first, m, a[1..] + b, more + g, rest);
      HeadFirst(a, b);
      Associative(first, more, g);
    }
  }

  /** Three parts in a row that deliver nothing. */
  lemma QuietThrice(buffer: string, a: seq<string>, m: string, b: seq<string>, n: string, c: seq<string>, rest: string)
    requires Delivers(buffer, a, [], m) && Delivers(m, b, [], n) && Delivers(n, c, [], rest)
    ensures Delivers(buffer, a + b + c, [], rest)
  {
    DeliversJoin(buffer, a, [], m, b, [], n);
    DeliversJoin(buffer, a + b, [], n, c, [], rest);
  }

  predicate Usable(buffer: string) {
    Plain(buffer) && |buffer| <= MAX_FRAME_CHARS
  }

  lemma ChunkKeepsUsable(buffer: string, chunk: string)
    ensures Usable(ReadChunk(buffer, chunk).rest)
  {
    RestIsPlain(buffer + chunk);
  }

  lemma {:induction false} ReadsKeepUsable(buffer: string, chunks: seq<string>)
    requires Usable(buffer)
    ensures Usable(ReadAll(buffer, chunks).rest)
    decreases |chunks|
  {
    if chunks != [] && chunks[0] != "" {
      ChunkKeepsUsable(buffer, chunks[0]);
      ReadsKeepUsable(ReadChunk(buffer, chunks[0]).rest, chunks[1..]);
    }
  }

  /** How many characters are buffered after `n` more of a run, read one at a time: the buffer is
      emptied whenever it is one over the limit. */
  function Left(buffered: nat, n: nat): nat
    decreases n
  {
    if n == 0 then buffered else Left(if buffered + 1 > MAX_FRAME_CHARS then 0 else buffered + 1, n - 1)
  }

  lemma {:induction false} LeftIs(buffered: nat, n: nat)
    requires buffered <= MAX_FRAME_CHARS
    ensures Left(buffered, n) == (buffered + n) % (MAX_FRAME_CHARS + 1)
    decreases n
  {
    if n > 0 {
      LeftIs(if buffered + 1 > MAX_FRAME_CHARS then 0 else buffered + 1, n - 1);
    }
  }

  lemma OnePlainChar(buffer: string, c: char)
    requires Usable(buffer) && !IsTerminator(c)
    ensures ReadChunk(buffer, [c]).frames == []
    ensures |ReadChunk(buffer, [c]).rest| == Left(|buffer|, 1)
  {
    PlainRead(buffer, [c]);
  }

  lemma SinglesOf(run: string)
    requires run != ""
    ensures Singles(run) == [[run[0]]] + Singles(run[1..])
  {}

  lemma SinglesNext(buffer: string, run: string, mid: string, rest: string)
    requires run != "" && ReadChunk(buffer, [run[0]]) == Extracted([], mid)
    requires Delivers(mid, Singles(run[1..]), [], rest)
    ensures Delivers(buffer, Singles(run), [], rest)
  {
    DeliversFirst(buffer, [run[0]], [], mid, Singles(run[1..]), [], rest);
    SinglesOf(run);
  }

  /** Read one character at a time, a run delivers nothing and leaves that many characters. */
  lemma {:induction false} SinglesWrap(buffer: string, run: string) returns (rest: string)
    requires Usable(buffer) && Plain(run)
    ensures Delivers(buffer, Singles(run), [], rest) && Usable(rest)
    ensures |rest| == Left(|buffer|, |run|)
    decreases |run|
  {
    if run == "" {
      rest := buffer;
    } else {
      var mid := ReadChunk(buffer, [run[0]]).rest;
      OnePlainChar(buffer, run[0]);
      ChunkKeepsUsable(buffer, [run[0]]);
      rest := SinglesWrap(mid, run[1..]);
      SinglesNext(buffer, run, mid, rest);
    }
  }

  /** The same reads, but two characters are read together just when the buffer is full. */
  function Shifted(run: string, k: nat): seq<string>
    requires k + 2 <= |run|
  {
    Singles(run[..k]) + [run[k..k + 2]] + Singles(run[k + 2..])
  }

  lemma ShiftedCut(run: string, k: nat)
    requires k + 2 <= |run|
    ensures Cuts(Shifted(run, k), run)
  {
    SinglesCut(run[..k]);
    SinglesCut(run[k + 2..]);
    assert Concat([run[k..k + 2]]) == run[k..k + 2] by { assert [run[k..k + 2]][1..] == []; }
    CutsJoin(Singles(run[..k]), run[..k], [run[k..k + 2]], run[k..k + 2]);
    CutsJoin(Singles(run[..k]) + [run[k..k + 2]], run[..k] + run[k..k + 2], Singles(run[k + 2..]), run[k + 2..]);
    assert run[..k] + run[k..k + 2] + run[k + 2..] == run;
  }

  lemma PlainPart(run: string, i: nat, j: nat)
    requires Plain(run) && i <= j <= |run|
    ensures Plain(run[i..j]) && Plain(run[..j]) && Plain(run[i..])
  {}

  /** Reading two characters onto a full buffer empties it. */
  lemma PairOverflows(buffer: string, pair: string)
    requires Plain(buffer) && |buffer| == MAX_FRAME_CHARS && Plain(pair) && |pair| == 2
    ensures Delivers(buffer, [pair], [], "")
  {
    PlainRead(buffer, pair);
    LastRead(buffer, pair);
  }

  lemma ShiftedDelivers(buffer: string, run: string, k: nat, full: string, rest: string)
    requires k + 2 <= |run| && Delivers(buffer, Singles(run[..k]), [], full)
    requires Delivers(full, [run[k..k + 2]], [], "") && Delivers("", Singles(run[k + 2..]), [], rest)
    ensures Delivers(buffer, Shifted(run, k), [], rest)
  {
    QuietThrice(buffer, Singles(run[..k]), full, [run[k..k + 2]], "", Singles(run[k + 2..]), rest);
  }

  lemma ShiftedWraps(buffer: string, run: string, k: nat) returns (rest: string)
    requires Usable(buffer) && Plain(run) && |buffer| + k == MAX_FRAME_CHARS && k + 2 <= |run|
    ensures Delivers(buffer, Shifted(run, k), [], rest) && Usable(rest)
    ensures |rest| == Left(0, |run| - k - 2)
  {
    PlainPart(run, k, k + 2);
    PlainPart(run, k + 2, |run|);
    var full := SinglesWrap(buffer, run[..k]);
    LeftIs(|buffer|, k);
    PairOverflows(full, run[k..k + 2]);
    rest := SinglesWrap("", run[k + 2..]);
    ShiftedDelivers(buffer, run, k, full, rest);
  }

  /** The frame a terminator ends, if any. */
  function Ended(buffer: string): seq<string> {
    if buffer == "" then [] else [buffer]
  }

  lemma TerminatorDelivers(buffer: string, t: char)
    requires Usable(buffer) && IsTerminator(t)
    ensures Delivers(buffer, [[t]], Ended(buffer), "")
  {
    assert buffer + [t] == buffer + [t] + "";
    SplitTerminated(buffer, t, "");
    SplitPlain("");
    assert Split(buffer + [t]) == Extracted(Ended(buffer), "");
    assert Kept(Ended(buffer)) == Ended(buffer);
    LastRead(buffer, [t]);
  }

  /** The frames before a run, what the run leaves to its terminator, and the frames after it. */
  lemma FramesAround(a: seq<string>, f: seq<string>, buffer: string, middle: seq<string>, x: string, t: char,
                     b: seq<string>, g: seq<string>, rest: string)
    requires Delivers("", a, f, buffer) && Delivers(buffer, middle, [], x) && Usable(x) && IsTerminator(t)
    requires Delivers("", b, g, rest)
    ensures Delivers("", a + middle + [[t]] + b, f + Ended(x) + g, rest)
  {
    TerminatorDelivers(x, t);
    DeliversJoin("", a, f, buffer, middle, [], x);
    DeliversJoin("", a + middle, f + [], x, [[t]], Ended(x), "");
    DeliversJoin("", a + middle + [[t]], f + [] + Ended(x), "", b, g, rest);
    assert f + [] == f;
  }

  lemma DifferentMiddles(a: seq<string>, x: string, y: string, b: seq<string>)
    requires |x| != |y|
    ensures a + Ended(x) + b != a + Ended(y) + b
  {
    var left, right := a + Ended(x) + b, a + Ended(y) + b;
    if x != "" && y != "" {
      assert left[|a|] == x && right[|a|] == y;
    } else {
      assert |left| != |right|;
    }
  }

  /** The two ways of reading leave lengths that differ by one, modulo the limit plus one. */
  lemma TailsDiffer(buffered: nat, k: nat, run: nat)
    requires buffered + k == MAX_FRAME_CHARS && k + 2 <= run
    ensures Left(buffered, run) != Left(0, run - k - 2)
  {
    LeftIs(buffered, run);
    LeftIs(0, run - k - 2);
    assert buffered + run == run - k - 2 + (MAX_FRAME_CHARS + 1) + 1;
  }

  lemma CutsOfParts(front: string, middle: seq<string>, run: string, t: char, back: string)
    requires Cuts(middle, run)
    ensures Cuts(Singles(front) + middle + [[t]] + Singles(back), front + run + [t] + back)
  {
    SinglesCut(front);
    SinglesCut(back);
    assert Concat([[t]]) == [t] by { assert [[t]][1..] == []; }
    CutsJoin(Singles(front), front, middle, run);
    CutsJoin(Singles(front) + middle, front + run, [[t]], [t]);
    CutsJoin(Singles(front) + middle + [[t]], front + run + [t], Singles(back), back);
  }

  /** Two ways of reading a run of two over the limit or more that leave different tails. */
  lemma TwoTails(buffer: string, run: string)
    returns (plain: seq<string>, x: string, shifted: seq<string>, y: string)
    requires Usable(buffer) && Plain(run) && |run| >= MAX_FRAME_CHARS + 2
    ensures Cuts(plain, run) && Delivers(buffer, plain, [], x) && Usable(x)
    ensures Cuts(shifted, run) && Delivers(buffer, shifted, [], y) && Usable(y)
    ensures |x| != |y|
  {
    var k := MAX_FRAME_CHARS - |buffer|;
    plain, shifted := Singles(run), Shifted(run, k);
    SinglesCut(run);
    ShiftedCut(run, k);
    x := SinglesWrap(buffer, run);
    y := ShiftedWraps(buffer, run, k);
    TailsDiffer(|buffer|, k, |run|);
  }

  lemma SinglesDeliver(buffer: string, s: string)
    requires Usable(buffer)
    ensures var e := ReadAll(buffer, Singles(s));
            Delivers(buffer, Singles(s), e.frames, e.rest) && Usable(e.rest)
  {
    ReadsKeepUsable(buffer, Singles(s));
  }

  /** Hence two cuts of any stream around such a run that deliver different frames. */
  lemma DifferingCuts(front: string, run: string, t: char, back: string) returns (a: seq<string>, b: seq<string>)
    requires Plain(run) && |run| >= MAX_FRAME_CHARS + 2 && IsTerminator(t)
    ensures Cuts(a, front + run + [t] + back) && Cuts(b, front + run + [t] + back)
    ensures ReadAll("", a).frames != ReadAll("", b).frames
  {
    SinglesDeliver("", front);
    SinglesDeliver("", back);
    var before, after := ReadAll("", Singles(front)), ReadAll("", Singles(back));
    var plain, x, shifted, y := TwoTails(before.rest, run);
    FramesAround(Singles(front), before.frames, before.rest, plain, x, t, Singles(back), after.frames, after.rest);
    FramesAround(Singles(front), before.frames, before.rest, shifted, y, t, Singles(back), after.frames, after.rest);
    DifferentMiddles(before.frames, x, y, after.frames);
    CutsOfParts(front, plain, run, t, back);
    CutsOfParts(front, shifted, run, t, back);
    a := Singles(front) + plain + [[t]] + Singles(back);
    b := Singles(front) + shifted + [[t]] + Singles(back);
  }

  /** The frames of a stream are the same for every cut into reads if and only if no terminated
      run is longer than one over the frame limit. */
  lemma FramesIndependentIff(s: string)
    ensures (forall a, b | Cuts(a, s) && Cuts(b, s) :: ReadAll("", a).frames == ReadAll("", b).frames) <==>
            TerminatedRunsFit(s)
  {
    if TerminatedRunsFit(s) {
      assert "" + s == s;
      forall a, b | Cuts(a, s) && Cuts(b, s) ensures ReadAll("", a).frames == ReadAll("", b).frames {
        FittingFrames("", "", a);
        FittingFrames("", "", b);
      }
    } else {
      var i, j :| 0 <= i <= j < |s| && IsTerminator(s[j]) && Plain(s[i..j]) && j - i > MAX_FRAME_CHARS + 1;
      assert s == s[..i] + s[i..j] + [s[j]] + s[j + 1..];
      var a, b := DifferingCuts(s[..i], s[i..j], s[j], s[j + 1..]);
    }
  }
}

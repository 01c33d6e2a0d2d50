/** Extraction of ASCII frames from a chunked stream (custom_components/elkm1/helpers/framing.py
    and the buffer handling of custom_components/elkm1/helpers/transport.py). */
module AsciiStream {
  import opened Bytes
  import opened AsciiFrames

  const MAX_FRAME_CHARS: nat := 1024

  predicate IsTerminator(c: char) { c == '\r' || c == '\n' }

  predicate Plain(s: string) {
    forall i | 0 <= i < |s| :: !IsTerminator(s[i])
  }

  datatype Extracted = Extracted(frames: seq<string>, rest: string)

  /** `frame`, unless it is empty, in front of what follows. */
  function Prepend(frame: string, e: Extracted): Extracted {
    if frame == "" then e else Extracted([frame] + e.frames, e.rest)
  }

  function After(frames: seq<string>, e: Extracted): Extracted {
    Extracted(frames + e.frames, e.rest)
  }

  /** How many characters precede the first terminator. */
  function RunLength(s: string): (n: nat)
    ensures n <= |s|
    ensures Plain(s[..n])
    ensures n < |s| ==> IsTerminator(s[n])
  {
    if s == "" || IsTerminator(s[0]) then 0
    else
      var n := 1 + RunLength(s[1..]);
      assert s[..n] == [s[0]] + s[1..][..n - 1];
      n
  }

  /** The non-empty runs that a terminator ends, and what follows the last terminator. */
  function Split(s: string): Extracted
    decreases |s|
  {
    var n := RunLength(s);
    if n == |s| then Extracted([], s) else Prepend(s[..n], Split(s[n + 1..]))
  }

  lemma {:induction false} RunLengthIs(run: string, more: string)
    requires Plain(run) && (more != "" ==> IsTerminator(more[0]))
    ensures RunLength(run + more) == |run|
  {
    if run == "" {
      assert run + more == more;
    } else {
      assert (run + more)[1..] == run[1..] + more;
      RunLengthIs(run[1..], more);
    }
  }

  lemma SplitPlain(s: string)
    requires Plain(s)
    ensures Split(s) == Extracted([], s)
  {
    RunLengthIs(s, "");
    assert s + "" == s;
  }

  lemma SplitTerminated(run: string, t: char, more: string)
    requires Plain(run) && IsTerminator(t)
    ensures Split(run + [t] + more) == Prepend(run, Split(more))
  {
    var s := run + [t] + more;
    RunLengthIs(run, [t] + more);
    assert s == run + ([t] + more);
    assert s[..|run|] == run && s[|run| + 1..] == more;
  }

  lemma SkipTerminator(t: char, more: string)
    requires IsTerminator(t)
    ensures Split([t] + more) == Split(more)
  {
    SplitTerminated("", t, more);
    assert "" + [t] + more == [t] + more;
  }

  /** The frames found before `start` and those after it are those of the whole buffer. */
  predicate Scanned(buffer: string, start: nat, frames: seq<string>)
    requires start <= |buffer|
  {
    After(frames, Split(buffer[start..])) == Split(buffer)
  }

  lemma NothingScanned(buffer: string)
    ensures Scanned(buffer, 0, [])
  {
    assert buffer[0..] == buffer && [] + Split(buffer).frames == Split(buffer).frames;
  }

  /** `extract_frames`: the scan takes CR LF as one terminator, which makes no difference to
      the frames because empty ones are dropped. */
  method ExtractFrames(buffer: string) returns (frames: seq<string>, rest: string)
    ensures Extracted(frames, rest) == Split(buffer)
  {
    frames := [];
    NothingScanned(buffer);
    var start: nat, i: nat := 0, 0;
    while i < |buffer|
      invariant start <= i <= |buffer|
      invariant Plain(buffer[start..i])
      invariant Scanned(buffer, start, frames)
    {
      if !IsTerminator(buffer[i]) {
        PlainSnoc(buffer, start, i);
        i := i + 1;
      } else {
        var end := MatchEnd(buffer, i);
        ScanStep(buffer, start, i, end, frames);
        var frame := buffer[start..i];
        if frame != "" {
          frames := frames + [frame];
        }
        start, i := end, end;
      }
    }
    rest := buffer[start..];
    LastRun(buffer, start, frames);
  }

  /** Where the terminator starting at i ends. */
  function MatchEnd(buffer: string, i: nat): (end: nat)
    requires i < |buffer|
    ensures i < end <= |buffer|
  {
    if buffer[i] == '\r' && i + 1 < |buffer| && buffer[i + 1] == '\n' then i + 2 else i + 1
  }

  lemma PlainSnoc(buffer: string, start: nat, i: nat)
    requires start <= i < |buffer| && Plain(buffer[start..i]) && !IsTerminator(buffer[i])
    ensures Plain(buffer[start..i + 1])
  {
    assert buffer[start..i + 1] == buffer[start..i] + [buffer[i]];
  }

  lemma LastRun(buffer: string, start: nat, frames: seq<string>)
    requires start <= |buffer| && Plain(buffer[start..|buffer|]) && Scanned(buffer, start, frames)
    ensures Extracted(frames, buffer[start..]) == Split(buffer)
  {
    assert buffer[start..|buffer|] == buffer[start..];
    SplitPlain(buffer[start..]);
    assert frames + [] == frames;
  }

  lemma AfterPrepend(frames: seq<string>, frame: string, e: Extracted)
    ensures After(frames, Prepend(frame, e)) == After(if frame == "" then frames else frames + [frame], e)
  {
    assert frames + ([frame] + e.frames) == frames + [frame] + e.frames;
  }

  lemma RunEnds(buffer: string, start: nat, i: nat, end: nat)
    requires start <= i < |buffer| && IsTerminator(buffer[i]) && Plain(buffer[start..i])
    requires end == MatchEnd(buffer, i)
    ensures Split(buffer[start..]) == Prepend(buffer[start..i], Split(buffer[end..]))
  {
    CutAt(buffer, start, i);
    SplitTerminated(buffer[start..i], buffer[i], buffer[i + 1..]);
    if end == i + 2 {
      CutHead(buffer, i + 1);
      SkipTerminator(buffer[i + 1], buffer[end..]);
    }
  }

  lemma CutAt(s: string, start: nat, i: nat)
    requires start <= i < |s|
    ensures s[start..] == s[start..i] + [s[i]] + s[i + 1..]
  {}

  lemma CutHead(s: string, i: nat)
    requires i < |s|
    ensures s[i..] == [s[i]] + s[i + 1..]
  {}

  lemma ScanStep(buffer: string, start: nat, i: nat, end: nat, frames: seq<string>)
    requires start <= i < |buffer| && IsTerminator(buffer[i]) && Plain(buffer[start..i])
    requires end == MatchEnd(buffer, i) && Scanned(buffer, start, frames)
    ensures Plain(buffer[end..end])
    ensures Scanned(buffer, end, if buffer[start..i] == "" then frames else frames + [buffer[start..i]])
  {
    RunEnds(buffer, start, i, end);
    AfterPrepend(frames, buffer[start..i], Split(buffer[end..]));
  }

  // ---- The read loop ----

  function Kept(frames: seq<string>): seq<string> {
    if frames == [] then []
    else (if |frames[0]| > MAX_FRAME_CHARS then [] else [frames[0]]) + Kept(frames[1..])
  }

  /** One read: extend the buffer, take its frames, drop an overlength remainder and
      overlength frames. */
  function ReadChunk(buffer: string, chunk: string): Extracted {
    var e := Split(buffer + chunk);
    Extracted(Kept(e.frames), if |e.rest| > MAX_FRAME_CHARS then "" else e.rest)
  }

  /** Reading chunk after chunk; an empty chunk is the end of the stream. */
  function ReadAll(buffer: string, chunks: seq<string>): Extracted
    decreases |chunks|
  {
    if chunks == [] || chunks[0] == "" then Extracted([], buffer)
    else
      var first := ReadChunk(buffer, chunks[0]);
      After(first.frames, ReadAll(first.rest, chunks[1..]))
  }

  method KeepShort(frames: seq<string>) returns (lines: seq<string>)
    ensures lines == Kept(frames)
  {
    lines := [];
    for i := 0 to |frames|
      invariant lines + Kept(frames[i..]) == Kept(frames)
    {
      var line := frames[i];
      assert frames[i..][0] == line && frames[i..][1..] == frames[i + 1..];
      if |line| > MAX_FRAME_CHARS {
        continue;
      }
      lines := lines + [line];
    }
  }

  method ReadOnce(buffer: string, data: string) returns (lines: seq<string>, rest: string)
    ensures Extracted(lines, rest) == ReadChunk(buffer, data)
  {
    var frames: seq<string>;
    frames, rest := ExtractFrames(buffer + data);
    if |rest| > MAX_FRAME_CHARS {
      rest := "";
    }
    lines := KeepShort(frames);
  }

  /** The buffer handling of `_entry_read_stream`: the lines it hands to the decoder. */
  method ReadStream(chunks: seq<string>) returns (lines: seq<string>, buffer: string)
    ensures Extracted(lines, buffer) == ReadAll("", chunks)
  {
    lines, buffer := [], "";
    for c := 0 to |chunks|
      invariant After(lines, ReadAll(buffer, chunks[c..])) == ReadAll("", chunks)
    {
      if chunks[c] == "" {
        return;
      }
      var kept, rest := ReadOnce(buffer, chunks[c]);
      ReadNext(chunks, c, buffer, Extracted(kept, rest), lines);
      lines, buffer := lines + kept, rest;
    }
  }

  lemma ReadNext(chunks: seq<string>, c: nat, buffer: string, first: Extracted, lines: seq<string>)
    requires c < |chunks| && chunks[c] != "" && first == ReadChunk(buffer, chunks[c])
    ensures After(lines, ReadAll(buffer, chunks[c..])) ==
            After(lines + first.frames, ReadAll(first.rest, chunks[c + 1..]))
  {
    assert chunks[c..][0] == chunks[c] && chunks[c..][1..] == chunks[c + 1..];
    var later := ReadAll(first.rest, chunks[c + 1..]);
    assert lines + (first.frames + later.frames) == lines + first.frames + later.frames;
  }

  // ---- Chunking never matters below the limit ----

  lemma PrependAfter(frame: string, frames: seq<string>, rest: string, e: Extracted)
    ensures After(Prepend(frame, Extracted(frames, rest)).frames, e) == Prepend(frame, After(frames, e))
  {
    assert [frame] + frames + e.frames == [frame] + (frames + e.frames);
  }

  lemma RunLengthConcat(a: string, b: string)
    requires RunLength(a) < |a|
    ensures RunLength(a + b) == RunLength(a)
  {
    var n := RunLength(a);
    assert a + b == a[..n] + (a[n..] + b);
    RunLengthIs(a[..n], a[n..] + b);
  }

  lemma SplitRun(s: string, run: string, more: string)
    requires RunLength(s) < |s| && run == s[..RunLength(s)] && more == s[RunLength(s) + 1..]
    ensures Split(s) == Prepend(run, Split(more))
  {}

  lemma SplitRunConcat(a: string, run: string, more: string, b: string)
    requires RunLength(a) < |a| && run == a[..RunLength(a)] && more == a[RunLength(a) + 1..]
    ensures Split(a + b) == Prepend(run, Split(more + b))
  {
    var n := RunLength(a);
    RunLengthConcat(a, b);
    PartsConcat(a, b, n);
    SplitRun(a + b, run, more + b);
  }

  lemma PartsConcat<T>(a: seq<T>, b: seq<T>, n: nat)
    requires n < |a|
    ensures (a + b)[..n] == a[..n] && (a + b)[n + 1..] == a[n + 1..] + b
  {}

  lemma AfterNothing(e: Extracted)
    ensures After([], e) == e
  {
    assert [] + e.frames == e.frames;
  }

  lemma PrependThenAfter(run: string, left: Extracted, later: Extracted)
    ensures Prepend(run, left).rest == left.rest
    ensures After(Prepend(run, left).frames, later) == Prepend(run, After(left.frames, later))
  {
    PrependAfter(run, left.frames, left.rest, later);
  }

  lemma SplitConcatAfter(a: string, run: string, more: string, b: string, later: Extracted)
    requires RunLength(a) < |a| && run == a[..RunLength(a)] && more == a[RunLength(a) + 1..]
    requires later == Split(Split(more).rest + b) && Split(more + b) == After(Split(more).frames, later)
    ensures Split(a).rest == Split(more).rest && Split(a + b) == After(Split(a).frames, later)
  {
    SplitRun(a, run, more);
    SplitRunConcat(a, run, more, b);
    PrependThenAfter(run, Split(more), later);
  }

  /** Splitting a concatenation continues from what the first part left over. */
  lemma {:induction false} SplitConcat(a: string, b: string)
    ensures Split(a + b) == After(Split(a).frames, Split(Split(a).rest + b))
    decreases |a|
  {
    var n := RunLength(a);
    if n == |a| {
      SplitPlain(a);
      AfterNothing(Split(a + b));
    } else {
      var more := a[n + 1..];
      SplitConcat(more, b);
      SplitConcatAfter(a, a[..n], more, b, Split(Split(more).rest + b));
    }
  }

  predicate Bounded(e: Extracted) {
    |e.rest| <= 1024 && forall f | f in e.frames :: |f| <= 1024
  }

  /** No run between terminators is longer than 1024 characters. */
  predicate RunsBounded(s: string) {
    Bounded(Split(s))
  }

  lemma {:induction false} KeptAll(frames: seq<string>)
    requires forall f | f in frames :: |f| <= MAX_FRAME_CHARS
    ensures Kept(frames) == frames
  {
    if frames != [] { KeptAll(frames[1..]); }
  }

  lemma {:induction false} RestIsPlain(s: string)
    ensures Plain(Split(s).rest)
    decreases |s|
  {
    var n := RunLength(s);
    if n < |s| { RestIsPlain(s[n + 1..]); } else { assert s[..n] == s; }
  }

  lemma FirstRunContains(rest: string, b: string)
    requires Plain(rest) && RunsBounded(rest + b)
    ensures |rest| <= MAX_FRAME_CHARS
  {
    var s := rest + b;
    var n := RunLength(s);
    if |rest| <= n < |s| && n > 0 {
      assert s[..n] in Split(s).frames;
    }
  }

  lemma BoundedParts(a: string, b: string)
    requires RunsBounded(a + b)
    ensures RunsBounded(a) && RunsBounded(Split(a).rest + b)
  {
    var left := Split(a);
    var right := Split(left.rest + b);
    SplitConcat(a, b);
    assert forall f | f in left.frames :: f in left.frames + right.frames;
    assert forall f | f in right.frames :: f in left.frames + right.frames;
    RestIsPlain(a);
    FirstRunContains(left.rest, b);
  }

  /** One read of a stream whose runs are bounded loses nothing. */
  lemma BoundedRead(buffer: string, chunk: string, later: string)
    requires RunsBounded(buffer + chunk + later)
    ensures ReadChunk(buffer, chunk) == Split(buffer + chunk)
    ensures var now := Split(buffer + chunk);
            && RunsBounded(now.rest + later) && Plain(now.rest)
            && Split(buffer + chunk + later) == After(now.frames, Split(now.rest + later))
  {
    var now := buffer + chunk;
    BoundedParts(now, later);
    SplitConcat(now, later);
    KeptAll(Split(now).frames);
    RestIsPlain(now);
  }

  /** While no run exceeds the limit, any cutting into non-empty reads delivers exactly the
      frames of the whole stream, in order. */
  lemma {:induction false} ReadsIndependentOfChunks(buffer: string, chunks: seq<string>)
    requires "" !in chunks && RunsBounded(buffer + Concat(chunks)) && Plain(buffer)
    ensures ReadAll(buffer, chunks) == Split(buffer + Concat(chunks))
    decreases |chunks|
  {
    if chunks == [] {
      assert buffer + Concat(chunks) == buffer;
      SplitPlain(buffer);
    } else {
      var now, later := buffer + chunks[0], Concat(chunks[1..]);
      assert buffer + Concat(chunks) == now + later;
      BoundedRead(buffer, chunks[0], later);
      ReadsIndependentOfChunks(Split(now).rest, chunks[1..]);
    }
  }

  // ---- The receive path round trip ----

  datatype Terminator = CR | LF | CRLF

  function TerminatorText(t: Terminator): string {
    match t case CR => "\r" case LF => "\n" case CRLF => "\r\n"
  }

  datatype Line = Line(payload: string, end: Terminator)

  predicate Sendable(line: Line) {
    |line.payload| <= 251 && Plain(line.payload)
  }

  function LineText(line: Line): string {
    Finalize(line.payload) + TerminatorText(line.end)
  }

  function StreamText(lines: seq<Line>): string {
    if lines == [] then "" else LineText(lines[0]) + StreamText(lines[1..])
  }

  function Frames(lines: seq<Line>): (r: seq<string>)
    ensures |r| == |lines|
    ensures forall i | 0 <= i < |r| :: r[i] == Finalize(lines[i].payload)
  {
    if lines == [] then [] else [Finalize(lines[0].payload)] + Frames(lines[1..])
  }

  lemma HexIsPlain(n: nat)
    requires n < 256
    ensures Plain(Hex2(n))
  {
    HexRoundTrip(n);
  }

  lemma PlainConcat(a: string, b: string)
    requires Plain(a) && Plain(b)
    ensures Plain(a + b)
  {}

  lemma FinalizedIsPlain(payload: string)
    requires |payload| <= 251 && Plain(payload)
    ensures Plain(Finalize(payload))
  {
    var unsized := payload + "00";
    var body := Hex2(|unsized| + 2) + unsized;
    assert Plain("00");
    PlainConcat(payload, "00");
    HexIsPlain(|unsized| + 2);
    PlainConcat(Hex2(|unsized| + 2), unsized);
    HexIsPlain((255 - Sum(body) % 256 + 1) % 256);
    PlainConcat(body, Checksum(body));
  }

  lemma SplitLine(frame: string, t: Terminator, more: string)
    requires frame != "" && Plain(frame)
    ensures Split(frame + TerminatorText(t) + more) == Prepend(frame, Split(more))
  {
    match t
    case CR => SplitTerminated(frame, '\r', more);
    case LF => SplitTerminated(frame, '\n', more);
    case CRLF =>
      assert frame + "\r\n" + more == frame + ['\r'] + (['\n'] + more);
      SplitTerminated(frame, '\r', ['\n'] + more);
      SkipTerminator('\n', more);
  }

  lemma {:induction false} SplitStream(lines: seq<Line>)
    requires forall l | l in lines :: Sendable(l)
    ensures Split(StreamText(lines)) == Extracted(Frames(lines), "")
  {
    if lines == [] {
      SplitPlain("");
    } else {
      var l := lines[0];
      assert l in lines;
      FinalizedIsPlain(l.payload);
      FinalizedIsValid(l.payload);
      SplitLine(Finalize(l.payload), l.end, StreamText(lines[1..]));
      SplitStream(lines[1..]);
    }
  }

  lemma FramesValid(lines: seq<Line>)
    requires forall l | l in lines :: Sendable(l)
    ensures forall f | f in Frames(lines) :: IsValid(f) && HasValidLengthAndChecksum(f) && |f| <= 257
  {
    forall i | 0 <= i < |lines|
      ensures var f := Frames(lines)[i]; IsValid(f) && HasValidLengthAndChecksum(f) && |f| <= 257
    {
      assert lines[i] in lines;
      FinalizedIsValid(lines[i].payload);
    }
  }

  /** Any finalised payloads, each ended by CR, LF or CR LF and cut into reads anywhere, even
      between CR and LF, come out as exactly those frames in order, all of them valid. */
  lemma ReceivePathRoundTrip(lines: seq<Line>, chunks: seq<string>)
    requires forall l | l in lines :: Sendable(l)
    requires "" !in chunks && Concat(chunks) == StreamText(lines)
    ensures ReadAll("", chunks) == Extracted(Frames(lines), "")
    ensures forall f | f in Frames(lines) :: IsValid(f) && HasValidLengthAndChecksum(f)
  {
    SplitStream(lines);
    FramesValid(lines);
    assert "" + Concat(chunks) == StreamText(lines);
    assert Bounded(Extracted(Frames(lines), ""));
    ReadsIndependentOfChunks("", chunks);
  }

  // ---- Above the limit the cutting matters ----

  lemma OneLine(buffer: string, run: string)
    requires Plain(buffer) && Plain(run) && buffer + run != ""
    ensures ReadChunk(buffer, run + "\r") == Extracted(Kept([buffer + run]), "")
  {
    PlainConcat(buffer, run);
    assert buffer + (run + "\r") == buffer + run + ['\r'] + "";
    SplitTerminated(buffer + run, '\r', "");
    SplitPlain("");
  }

  lemma PlainRead(buffer: string, chunk: string)
    requires Plain(buffer) && Plain(chunk)
    ensures ReadChunk(buffer, chunk) == Extracted([], if |buffer + chunk| > MAX_FRAME_CHARS then "" else buffer + chunk)
  {
    PlainConcat(buffer, chunk);
    SplitPlain(buffer + chunk);
  }

  lemma LastRead(buffer: string, chunk: string)
    requires chunk != ""
    ensures ReadAll(buffer, [chunk]) == ReadChunk(buffer, chunk)
  {
    assert [chunk][1..] == [];
    assert ReadChunk(buffer, chunk).frames + [] == ReadChunk(buffer, chunk).frames;
  }

  lemma QuietRead(buffer: string, chunk: string, later: seq<string>, rest: string)
    requires chunk != "" && ReadChunk(buffer, chunk) == Extracted([], rest)
    ensures ReadAll(buffer, [chunk] + later) == ReadAll(rest, later)
  {
    assert ([chunk] + later)[1..] == later;
    assert [] + ReadAll(rest, later).frames == ReadAll(rest, later).frames;
  }

  lemma OverlengthDropped(a: string, run: string)
    requires Plain(a) && Plain(run) && |a| + |run| > MAX_FRAME_CHARS
    ensures ReadAll(a, [run + "\r"]).frames == []
  {
    OneLine(a, run);
    LastRead(a, run + "\r");
  }

  lemma ShortLineKept(tail: string)
    requires Plain(tail) && 0 < |tail| <= MAX_FRAME_CHARS
    ensures ReadAll("", [tail + "\r"]).frames == [tail]
  {
    assert "" + tail == tail;
    OneLine("", tail);
    LastRead("", tail + "\r");
  }

  /** With part of a run already buffered, a run over the limit is dropped when its terminator
      comes with the read that exceeds the limit, but when a read ends between the two, the
      tail of the run is delivered as a frame of its own. */
  lemma OverlengthDependsOnChunks(a: string, b: string, tail: string)
    requires Plain(a) && Plain(b) && Plain(tail) && tail != "" && b != ""
    requires |a| <= 1024 < |a| + |b| && |tail| <= 1024
    ensures ReadAll(a, [(b + tail) + "\r"]).frames == []
    ensures ReadAll(a, [b] + [tail + "\r"]).frames == [tail]
  {
    PlainConcat(b, tail);
    OverlengthDropped(a, b + tail);
    PlainRead(a, b);
    QuietRead(a, b, [tail + "\r"], "");
    ShortLineKept(tail);
  }
}

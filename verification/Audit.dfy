/** The hash-chained audit log (AuditLog in src/elk_programmer/security.py). A line is what it
    parses to; the digest is a parameter. */
module Audit {
  import opened Bytes

  /** A JSON object, its values taken as texts. */
  type Members = map<string, string>

  /** A line of the file: blank, an object, or something that does not parse to one. */
  datatype Line = Blank | Garbage | Entry(members: Members)

  type Digest = (Members, string) -> string

  function Stored(m: Members): string {
    if "hash" in m then m["hash"] else ""
  }

  function Content(m: Members): Members {
    m - {"hash"}
  }

  // ---- What an intact chain is ----

  /** The lines `verify` numbers. */
  function Kept(lines: seq<Line>): seq<Line>
    decreases |lines|
  {
    if lines == [] then []
    else Kept(lines[..|lines| - 1]) + (if lines[|lines| - 1].Blank? then [] else [lines[|lines| - 1]])
  }

  function HashOf(line: Line): string {
    if line.Entry? then Stored(line.members) else ""
  }

  /** The hash of the last of some lines, "" before the first. */
  function LastHash(kept: seq<Line>): string {
    if kept == [] then "" else HashOf(kept[|kept| - 1])
  }

  predicate Links(digest: Digest, m: Members, previous: string) {
    "previous" in m && m["previous"] == previous && digest(Content(m), previous) == Stored(m)
  }

  predicate GoodAt(digest: Digest, kept: seq<Line>, i: nat)
    requires i < |kept|
  {
    kept[i].Entry? && Links(digest, kept[i].members, LastHash(kept[..i]))
  }

  predicate Intact(digest: Digest, kept: seq<Line>) {
    forall i :: 0 <= i < |kept| ==> GoodAt(digest, kept, i)
  }

  /** What `verify` can do: return (True, n), return (False, n), or raise on its n-th line. */
  datatype Verdict = Sound(n: nat) | Broken(n: nat) | Raises(n: nat)

  /** What each verdict means, with no walk in it. */
  predicate Tells(digest: Digest, lines: seq<Line>, v: Verdict) {
    var kept := Kept(lines);
    match v
    case Sound(n) => n == |kept| && Intact(digest, kept)
    case Broken(n) =>
      1 <= n <= |kept| && Intact(digest, kept[..n - 1]) && kept[n - 1].Entry? && !GoodAt(digest, kept, n - 1)
    case Raises(n) => 1 <= n <= |kept| && Intact(digest, kept[..n - 1]) && kept[n - 1].Garbage?
  }

  /** Whether a line is good depends only on the lines up to it. */
  lemma PrefixGood(digest: Digest, kept: seq<Line>, n: nat, i: nat)
    requires i < n <= |kept|
    ensures GoodAt(digest, kept[..n], i) == GoodAt(digest, kept, i)
  {
    assert kept[..n][..i] == kept[..i];
  }

  /** Past the line a verdict names, no other verdict can see an intact chain. */
  lemma NothingIsSoundPast(digest: Digest, lines: seq<Line>, v: Verdict, w: Verdict)
    requires Tells(digest, lines, v) && Tells(digest, lines, w) && !v.Sound?
    ensures !w.Sound? && w.n <= v.n
  {
    var kept := Kept(lines);
    var sound := if w.Sound? then w.n else w.n - 1;
    assert kept[..|kept|] == kept;
    if sound >= v.n {
      PrefixGood(digest, kept, sound, v.n - 1);
    }
  }

  /** Any log has at most one verdict that tells the truth about it. */
  lemma VerdictIsUnique(digest: Digest, lines: seq<Line>, v: Verdict, w: Verdict)
    requires Tells(digest, lines, v) && Tells(digest, lines, w)
    ensures v == w
  {
    if !v.Sound? { NothingIsSoundPast(digest, lines, v, w); }
    if !w.Sound? { NothingIsSoundPast(digest, lines, w, v); }
  }

  lemma KeptSnoc(lines: seq<Line>, line: Line)
    ensures Kept(lines + [line]) == if line.Blank? then Kept(lines) else Kept(lines) + [line]
  {
    assert (lines + [line])[..|lines|] == lines;
  }

  lemma {:induction false} KeptConcat(a: seq<Line>, b: seq<Line>)
    ensures Kept(a + b) == Kept(a) + Kept(b)
    decreases |b|
  {
    if b == [] {
      assert a + b == a;
    } else {
      var front, last := b[..|b| - 1], b[|b| - 1];
      KeptConcat(a, front);
      KeptConcatNext(a, front, last);
      assert b == front + [last];
    }
  }

  lemma KeptConcatNext(a: seq<Line>, front: seq<Line>, last: Line)
    requires Kept(a + front) == Kept(a) + Kept(front)
    ensures Kept(a + (front + [last])) == Kept(a) + Kept(front + [last])
  {
    KeptSnoc(a + front, last);
    KeptSnoc(front, last);
    Associative(a, front, [last]);
    Associative(Kept(a), Kept(front), [last]);
  }

  lemma Associative<T>(a: seq<T>, b: seq<T>, c: seq<T>)
    ensures a + (b + c) == a + b + c
  {}

  /** Going one line further. */
  lemma KeptNext(lines: seq<Line>, i: nat, kept: seq<Line>)
    requires i < |lines| && kept == Kept(lines[..i])
    ensures Kept(lines[..i + 1]) == if lines[i].Blank? then kept else kept + [lines[i]]
  {
    KeptSnoc(lines[..i], lines[i]);
    assert lines[..i + 1] == lines[..i] + [lines[i]];
  }

  /** The numbered lines of the first lines are the first numbered lines. */
  lemma KeptPrefix(lines: seq<Line>, i: nat)
    requires i <= |lines|
    ensures |Kept(lines[..i])| <= |Kept(lines)|
    ensures Kept(lines)[..|Kept(lines[..i])|] == Kept(lines[..i])
  {
    KeptConcat(lines[..i], lines[i..]);
    assert lines[..i] + lines[i..] == lines;
  }

  lemma IntactSnoc(digest: Digest, kept: seq<Line>, line: Line)
    ensures Intact(digest, kept + [line]) <==>
            Intact(digest, kept) && line.Entry? && Links(digest, line.members, LastHash(kept))
  {
    var longer := kept + [line];
    assert longer[..|kept|] == kept;
    forall i | 0 <= i < |kept| ensures GoodAt(digest, longer, i) == GoodAt(digest, kept, i) {
      PrefixGood(digest, longer, |kept|, i);
    }
    if Intact(digest, longer) {
      assert GoodAt(digest, longer, |kept|);
      forall i | 0 <= i < |kept| ensures GoodAt(digest, kept, i) { assert GoodAt(digest, longer, i); }
    }
  }

  /** Stopping at the first line that does not parse, or does not link to the chain before it. */
  lemma StopsAt(digest: Digest, lines: seq<Line>, i: nat, kept: seq<Line>)
    requires i < |lines| && kept == Kept(lines[..i]) && Intact(digest, kept)
    ensures lines[i].Garbage? ==> Tells(digest, lines, Raises(|kept| + 1))
    ensures lines[i].Entry? && !Links(digest, lines[i].members, LastHash(kept)) ==>
              Tells(digest, lines, Broken(|kept| + 1))
  {
    if !lines[i].Blank? {
      KeptNext(lines, i, kept);
      KeptPrefix(lines, i + 1);
      var all := Kept(lines);
      assert all[..|kept| + 1] == kept + [lines[i]];
      assert all[|kept|] == (kept + [lines[i]])[|kept|];
      assert all[..|kept|] == all[..|kept| + 1][..|kept|] == kept;
    }
  }

  // ---- The object ----

  /** The hash a reopened log continues from; None when its last line does not parse. */
  function TailHash(lines: seq<Line>): Option<string> {
    var kept := Kept(lines);
    if kept != [] && kept[|kept| - 1].Garbage? then None else Some(LastHash(kept))
  }

  datatype State = State(lines: seq<Line>, lastHash: string)

  datatype Fields = Fields(time: string, event: string, userId: string, userName: string, details: string)

  function ContentOf(f: Fields, previous: string): Members {
    map["time" := f.time, "event" := f.event, "user_id" := f.userId, "user_name" := f.userName,
        "details" := f.details, "previous" := previous]
  }

  function NewEntry(digest: Digest, f: Fields, previous: string): Members {
    ContentOf(f, previous)["hash" := digest(ContentOf(f, previous), previous)]
  }

  class AuditLog {
    const digest: Digest
    var lines: seq<Line>
    var lastHash: string

    ghost function Value(): State
      reads this
    {
      State(lines, lastHash)
    }

    /** Opening an existing file. The source raises when its last line does not parse. */
    constructor (digest: Digest, lines: seq<Line>)
      requires TailHash(lines).Some?
      ensures this.digest == digest && Value() == State(lines, TailHash(lines).value)
    {
      this.digest, this.lines, lastHash := digest, lines, "";
      new;
      var tail := ReadTailHash(lines);
      lastHash := tail.value;
    }

    static method ReadTailHash(lines: seq<Line>) returns (r: Option<string>)
      ensures r == TailHash(lines)
    {
      var last := Blank;
      ghost var kept := [];
      for i := 0 to |lines|
        invariant kept == Kept(lines[..i])
        invariant last == if kept == [] then Blank else kept[|kept| - 1]
        invariant kept != [] ==> !last.Blank?
      {
        KeptNext(lines, i, kept);
        if !lines[i].Blank? {
          last := lines[i];
          kept := kept + [lines[i]];
        }
      }
      assert lines[..|lines|] == lines;
      match last
      case Blank => r := Some("");
      case Garbage => r := None;
      case Entry(members) => r := Some(Stored(members));
    }

    method Record(f: Fields) returns (entry: Members)
      modifies this
      ensures entry == NewEntry(digest, f, old(lastHash))
      ensures Value() == State(old(lines) + [Entry(entry)], Stored(entry))
    {
      var content := ContentOf(f, lastHash);
      entry := content["hash" := digest(content, lastHash)];
      lines := lines + [Entry(entry)];
      lastHash := entry["hash"];
    }

    /** Names the first line at which the chain fails, or counts the lines of an intact chain. */
    method Verify() returns (v: Verdict)
      ensures Tells(digest, lines, v)
    {
      var previous := "";
      var n := 0;
      ghost var kept := [];
      for i := 0 to |lines|
        invariant kept == Kept(lines[..i]) && Intact(digest, kept)
        invariant n == |kept| && previous == LastHash(kept)
      {
        KeptNext(lines, i, kept);
        StopsAt(digest, lines, i, kept);
        if !lines[i].Blank? {
          n := n + 1;
          if lines[i].Garbage? {
            return Raises(n);
          }
          if !Links(digest, lines[i].members, previous) {
            return Broken(n);
          }
          IntactSnoc(digest, kept, lines[i]);
          previous := Stored(lines[i].members);
          kept := kept + [lines[i]];
        }
      }
      assert lines[..|lines|] == lines;
      v := Sound(n);
    }
  }

  // ---- Over every run ----

  datatype Event = Recording(f: Fields) | Reopening

  /** Recording through the open object, or starting the service again on the same file. */
  function Next(digest: Digest, s: State, ev: Event): State {
    match ev
    case Recording(f) =>
      var entry := NewEntry(digest, f, s.lastHash);
      State(s.lines + [Entry(entry)], Stored(entry))
    case Reopening => if TailHash(s.lines).Some? then s.(lastHash := TailHash(s.lines).value) else s
  }

  function Run(digest: Digest, s: State, events: seq<Event>): State
    decreases |events|
  {
    if events == [] then s else Run(digest, Next(digest, s, events[0]), events[1..])
  }

  function Recordings(events: seq<Event>): nat
    decreases |events|
  {
    if events == [] then 0 else (if events[0].Recording? then 1 else 0) + Recordings(events[1..])
  }

  /** The fields an entry holds, as a reader of the log finds them. */
  function FieldsOf(line: Line): Option<Fields> {
    if line.Entry? && {"time", "event", "user_id", "user_name", "details"} <= line.members.Keys then
      var m := line.members;
      Some(Fields(m["time"], m["event"], m["user_id"], m["user_name"], m["details"]))
    else None
  }

  function FieldsRecorded(events: seq<Event>): seq<Option<Fields>>
    decreases |events|
  {
    if events == [] then []
    else (if events[0].Recording? then [Some(events[0].f)] else []) + FieldsRecorded(events[1..])
  }

  function AllFields(lines: seq<Line>): (r: seq<Option<Fields>>)
    ensures |r| == |lines|
  {
    seq(|lines|, i requires 0 <= i < |lines| => FieldsOf(lines[i]))
  }

  lemma FieldsAppended(before: seq<Line>, line: Line, end: seq<Line>)
    requires before + [line] <= end
    ensures AllFields(end[|before|..]) == [FieldsOf(line)] + AllFields(end[|before + [line]|..])
  {
    assert (before + [line])[|before|] == line;
    assert end[|before|..] == [line] + end[|before| + 1..];
  }

  /** Append only: a run leaves the lines before it alone, and the lines after them read back
      as what was recorded, in order. */
  lemma {:induction false} LogHoldsWhatWasRecorded(digest: Digest, s: State, events: seq<Event>)
    ensures s.lines <= Run(digest, s, events).lines
    ensures AllFields(Run(digest, s, events).lines[|s.lines|..]) == FieldsRecorded(events)
    decreases |events|
  {
    if events != [] {
      var t, end := Next(digest, s, events[0]), Run(digest, s, events).lines;
      LogHoldsWhatWasRecorded(digest, t, events[1..]);
      if events[0].Recording? {
        var line := Entry(NewEntry(digest, events[0].f, s.lastHash));
        assert FieldsOf(line) == Some(events[0].f);
        FieldsAppended(s.lines, line, end);
      }
    }
  }

  lemma NewEntryLinks(digest: Digest, f: Fields, previous: string)
    ensures Links(digest, NewEntry(digest, f, previous), previous)
  {
    assert Content(NewEntry(digest, f, previous)) == ContentOf(f, previous);
  }

  lemma RecordedOnce(digest: Digest, s: State, n: nat, f: Fields, entry: Members)
    requires Tells(digest, s.lines, Sound(n)) && TailHash(s.lines) == Some(s.lastHash)
    requires entry == NewEntry(digest, f, s.lastHash)
    ensures Tells(digest, s.lines + [Entry(entry)], Sound(n + 1))
  {
    NewEntryLinks(digest, f, s.lastHash);
    KeptSnoc(s.lines, Entry(entry));
    IntactSnoc(digest, Kept(s.lines), Entry(entry));
  }

  /** After any records and reopenings an intact log is intact, with one more line per record. */
  lemma {:induction false} RecordedLogIsSound(digest: Digest, s: State, n: nat, events: seq<Event>)
    requires Tells(digest, s.lines, Sound(n)) && TailHash(s.lines) == Some(s.lastHash)
    ensures Tells(digest, Run(digest, s, events).lines, Sound(n + Recordings(events)))
    decreases |events|
  {
    if events != [] {
      if events[0].Recording? {
        RecordedOnce(digest, s, n, events[0].f, NewEntry(digest, events[0].f, s.lastHash));
        RecordedLogIsSound(digest, Next(digest, s, events[0]), n + 1, events[1..]);
      } else {
        RecordedLogIsSound(digest, Next(digest, s, events[0]), n, events[1..]);
      }
    }
  }

  /** Damage is never written over: whatever is recorded later, and however often the service is
      started again, the same first line is named. */
  lemma {:induction false} DamageStays(digest: Digest, s: State, v: Verdict, events: seq<Event>)
    requires Tells(digest, s.lines, v) && !v.Sound?
    ensures Tells(digest, Run(digest, s, events).lines, v)
    decreases |events|
  {
    if events != [] {
      if events[0].Recording? {
        DamageStaysOnce(digest, s.lines, v, Entry(NewEntry(digest, events[0].f, s.lastHash)));
      }
      DamageStays(digest, Next(digest, s, events[0]), v, events[1..]);
    }
  }

  lemma DamageStaysOnce(digest: Digest, lines: seq<Line>, v: Verdict, line: Line)
    requires Tells(digest, lines, v) && !v.Sound?
    ensures Tells(digest, lines + [line], v)
  {
    KeptSnoc(lines, line);
    var kept, longer := Kept(lines), Kept(lines + [line]);
    assert longer[..|kept|] == kept;
    assert longer[..v.n - 1] == kept[..v.n - 1];
    PrefixGood(digest, longer, |kept|, v.n - 1);
  }

  // ---- What the last hash pins down ----

  /** The assumption on the digest: no collision, and never the empty text. */
  ghost predicate CollisionFree(digest: Digest) {
    && (forall c, d, p, q :: digest(c, p) == digest(d, q) ==> c == d && p == q)
    && (forall c, p :: digest(c, p) != "")
  }

  lemma EmptyHashMeansEmptyLog(digest: Digest, kept: seq<Line>)
    requires CollisionFree(digest) && Intact(digest, kept)
    ensures LastHash(kept) == "" <==> kept == []
  {
    if kept != [] { assert GoodAt(digest, kept, |kept| - 1); }
  }

  /** Two intact logs with the same last hash are the same, line for line. So any change to an
      intact log that keeps its last hash is found. */
  lemma {:induction false} LastHashPinsLog(digest: Digest, a: seq<Line>, b: seq<Line>)
    requires CollisionFree(digest) && Intact(digest, a) && Intact(digest, b)
    requires LastHash(a) == LastHash(b)
    ensures a == b
    decreases |a|
  {
    EmptyHashMeansEmptyLog(digest, a);
    EmptyHashMeansEmptyLog(digest, b);
    if a != [] {
      var a', b' := a[..|a| - 1], b[..|b| - 1];
      var x, y := a[|a| - 1], b[|b| - 1];
      assert a == a' + [x] && b == b' + [y];
      IntactSnoc(digest, a', x);
      IntactSnoc(digest, b', y);
      LastHashPinsLog(digest, a', b');
      SameContentAndHash(digest, x.members, y.members);
    }
  }

  lemma SameContentAndHash(digest: Digest, m: Members, k: Members)
    requires Content(m) == Content(k) && Stored(m) == Stored(k) && Stored(m) != ""
    ensures m == k
  {
    assert "hash" in m && "hash" in k;
    assert m == Content(m)["hash" := Stored(m)];
    assert k == Content(k)["hash" := Stored(k)];
  }

  /** What the chain alone cannot show: a log cut short is intact, so it is told from the whole
      one only by its last hash or its length. */
  lemma CutLogIsSound(digest: Digest, lines: seq<Line>, i: nat)
    requires i <= |lines| && Intact(digest, Kept(lines))
    ensures Tells(digest, lines[..i], Sound(|Kept(lines[..i])|))
  {
    KeptPrefix(lines, i);
    var kept, cut := Kept(lines), Kept(lines[..i]);
    forall j | 0 <= j < |cut| ensures GoodAt(digest, cut, j) {
      PrefixGood(digest, kept, |cut|, j);
    }
  }
}

/** What a line of the audit log holds, and which logs `verify` accepts, member by member
    (src/elk_programmer/security.py). */
module AuditLaws {
  import opened Bytes
  import opened Positions
  import opened Audit

  // ---- One record ----

  /** A record appends one line with these members: what was recorded, the hash of the line before, and
      the digest of all that with that hash. The log goes on from it. */
  lemma RecordIs(digest: Digest, s: State, f: Fields) returns (m: Members)
    ensures m.Keys == {"time", "event", "user_id", "user_name", "details", "previous", "hash"}
    ensures Next(digest, s, Recording(f)) == State(s.lines + [Entry(m)], m["hash"])
    ensures m["time"] == f.time && m["event"] == f.event && m["user_id"] == f.userId
    ensures m["user_name"] == f.userName && m["details"] == f.details && m["previous"] == s.lastHash
    ensures m["hash"] == digest(m - {"hash"}, s.lastHash)
  {
    m := NewEntry(digest, f, s.lastHash);
    assert m - {"hash"} == ContentOf(f, s.lastHash);
  }

  // ---- The walk ----

  /** The lines that are not blank, in order. */
  predicate Numbered(lines: seq<Line>, p: seq<int>) {
    && Rising(p, |lines|) && (forall k | 0 <= k < |p| :: lines[p[k]] != Blank)
    && forall j | 0 <= j < |lines| && lines[j] != Blank :: j in p
  }

  /** The hash that line k has to link to: that of the line before, if it has one. */
  function Before(lines: seq<Line>, p: seq<int>, k: nat): string
    requires Numbered(lines, p) && k <= |p|
  {
    if k == 0 then ""
    else match lines[p[k - 1]]
      case Entry(m) => if "hash" in m then m["hash"] else ""
      case _ => ""
  }

  /** Line k names that hash as the previous one, and its own is the digest of the rest of it with that. */
  predicate GoodLine(digest: Digest, lines: seq<Line>, p: seq<int>, k: nat)
    requires Numbered(lines, p) && k < |p|
  {
    match lines[p[k]]
    case Entry(m) =>
      var previous := Before(lines, p, k);
      && "previous" in m && m["previous"] == previous
      && digest(m - {"hash"}, previous) == if "hash" in m then m["hash"] else ""
    case _ => false
  }

  /** The first n lines are good. */
  predicate GoodTo(digest: Digest, lines: seq<Line>, p: seq<int>, n: nat)
    requires Numbered(lines, p) && n <= |p|
  {
    forall k | 0 <= k < n :: GoodLine(digest, lines, p, k)
  }

  /** Each verdict says which lines are good: all of them, or those before the first that is not, which
      parses or does not. */
  predicate Says(digest: Digest, lines: seq<Line>, p: seq<int>, v: Verdict)
    requires Numbered(lines, p)
  {
    match v
    case Sound(n) => n == |p| && GoodTo(digest, lines, p, n)
    case Broken(n) =>
      1 <= n <= |p| && GoodTo(digest, lines, p, n - 1) && lines[p[n - 1]].Entry? && !GoodLine(digest, lines, p, n - 1)
    case Raises(n) => 1 <= n <= |p| && GoodTo(digest, lines, p, n - 1) && lines[p[n - 1]] == Garbage
  }

  // ---- The numbered lines are those ----

  predicate KeptAt(lines: seq<Line>, p: seq<int>, kept: seq<Line>) {
    Numbered(lines, p) && |p| == |kept| && forall k | 0 <= k < |p| :: kept[k] == lines[p[k]]
  }

  lemma KeptMore(lines: seq<Line>, p: seq<int>, kept: seq<Line>, last: Line)
    requires KeptAt(lines, p, kept)
    ensures if last == Blank then KeptAt(lines + [last], p, kept)
            else KeptAt(lines + [last], p + [|lines|], kept + [last])
  {
    var all := lines + [last];
    RisingMore(p, |lines|);
    forall j | 0 <= j < |lines| && all[j] != Blank ensures j in p { assert all[j] == lines[j]; }
  }

  lemma {:induction false} KeptAre(lines: seq<Line>) returns (p: seq<int>)
    ensures KeptAt(lines, p, Kept(lines))
    decreases |lines|
  {
    p := [];
    if lines != [] {
      var front, last := lines[..|lines| - 1], lines[|lines| - 1];
      p := KeptAre(front);
      KeptMore(front, p, Kept(front), last);
      KeptSnoc(front, last);
      assert front + [last] == lines;
      if last != Blank { p := p + [|front|]; }
    }
  }

  lemma GoodIs(digest: Digest, lines: seq<Line>, p: seq<int>, kept: seq<Line>, k: nat)
    requires KeptAt(lines, p, kept) && k < |p|
    ensures GoodAt(digest, kept, k) <==> GoodLine(digest, lines, p, k)
  {
    if k > 0 { assert kept[..k][k - 1] == kept[k - 1]; }
  }

  lemma IntactIs(digest: Digest, lines: seq<Line>, p: seq<int>, kept: seq<Line>, n: nat)
    requires KeptAt(lines, p, kept) && n <= |p|
    ensures Intact(digest, kept[..n]) <==> GoodTo(digest, lines, p, n)
  {
    forall k | 0 <= k < n ensures GoodAt(digest, kept[..n], k) <==> GoodLine(digest, lines, p, k) {
      GoodIs(digest, lines, p, kept, k);
      PrefixGood(digest, kept, n, k);
    }
  }

  lemma SoundIs(digest: Digest, lines: seq<Line>, p: seq<int>, n: nat)
    requires KeptAt(lines, p, Kept(lines))
    ensures Tells(digest, lines, Sound(n)) <==> Says(digest, lines, p, Sound(n))
  {
    assert Kept(lines)[..|Kept(lines)|] == Kept(lines);
    IntactIs(digest, lines, p, Kept(lines), |p|);
  }

  lemma UnsoundIs(digest: Digest, lines: seq<Line>, p: seq<int>, n: nat)
    requires KeptAt(lines, p, Kept(lines)) && 1 <= n <= |p|
    ensures Tells(digest, lines, Broken(n)) <==> Says(digest, lines, p, Broken(n))
    ensures Tells(digest, lines, Raises(n)) <==> Says(digest, lines, p, Raises(n))
  {
    IntactIs(digest, lines, p, Kept(lines), n - 1);
    GoodIs(digest, lines, p, Kept(lines), n - 1);
  }

  /** What `verify` returns says exactly this, and nothing else that does can be returned. */
  lemma VerdictIff(digest: Digest, lines: seq<Line>, v: Verdict) returns (p: seq<int>)
    ensures Numbered(lines, p)
    ensures Tells(digest, lines, v) <==> Says(digest, lines, p, v)
  {
    p := KeptAre(lines);
    if v.Sound? {
      SoundIs(digest, lines, p, v.n);
    } else if 1 <= v.n <= |p| {
      UnsoundIs(digest, lines, p, v.n);
    }
  }

  /** A log that is opened again goes on from the hash of its last line; one whose last line does not
      parse cannot be opened. */
  lemma ReopenIs(lines: seq<Line>) returns (p: seq<int>)
    ensures Numbered(lines, p)
    ensures TailHash(lines) ==
            if p != [] && lines[p[|p| - 1]] == Garbage then None else Some(Before(lines, p, |p|))
  {
    p := KeptAre(lines);
  }
}

/** The SubRip (.srt) side of the caption pipeline: the caption record, the
    `HH:MM:SS,mmm` timestamp, the tolerant parser that turns the transcription
    service's reply into a caption list, and the serializer used for export. */
module Srt {
  import opened Text

  /** One subtitle cue. The times are kept both as the matched `HH:MM:SS,mmm`
      strings and as whole milliseconds (the source keeps float seconds,
      which are these values divided by 1000). */
  datatype Caption = Caption(
    id: int,
    startTime: string,
    endTime: string,
    startMs: int,
    endMs: int,
    text: string)

  // ---------------------------------------------------------------------------
  // Timestamps

  /** `t` is exactly `\d{2}:\d{2}:\d{2},\d{3}` (ASCII digits only). */
  predicate IsTimestamp(t: string) {
    && |t| == 12
    && IsDigit(t[0]) && IsDigit(t[1]) && t[2] == ':'
    && IsDigit(t[3]) && IsDigit(t[4]) && t[5] == ':'
    && IsDigit(t[6]) && IsDigit(t[7]) && t[8] == ','
    && IsDigit(t[9]) && IsDigit(t[10]) && IsDigit(t[11])
  }

  /** The value of the two-digit field starting at `t[i]`. */
  function Two(t: string, i: nat): nat
    requires i + 2 <= |t| && IsDigit(t[i]) && IsDigit(t[i + 1])
  {
    DigitOf(t[i], 10).value * 10 + DigitOf(t[i + 1], 10).value
  }

  /** `srtTimeToSeconds`, in milliseconds: hours * 3600 + minutes * 60 +
      seconds, plus the millisecond field over 1000. Minutes and seconds are
      read as written, without any range check. */
  function SrtTimeToMillis(t: string): (r: nat)
    requires IsTimestamp(t)
    ensures r / 1000 == Two(t, 0) * 3600 + Two(t, 3) * 60 + Two(t, 6)
    ensures r % 1000 == RadixValue(t[9..], 10)
  {
    var ms := DigitOf(t[9], 10).value * 100 + DigitOf(t[10], 10).value * 10 + DigitOf(t[11], 10).value;
    assert RadixValue(t[9..], 10) == ms by {
      var z := t[9..];
      assert z[..2] == t[9..11] && t[9..11][..1] == t[9..10] && t[9..10][..0] == [];
      assert RadixValue(t[9..10], 10) == DigitOf(t[9], 10).value;
      assert RadixValue(t[9..11], 10) == DigitOf(t[9], 10).value * 10 + DigitOf(t[10], 10).value;
    }
    Two(t, 0) * 3_600_000 + Two(t, 3) * 60_000 + Two(t, 6) * 1000 + ms
  }

  function Pad2(v: nat): (r: string)
    requires v < 100
  {
    [DigitChar(v / 10), DigitChar(v % 10)]
  }

  /** The canonical `HH:MM:SS,mmm` rendering of a time under 100 hours. */
  function FormatTimestamp(ms: nat): (t: string)
    requires ms < 360_000_000
  {
    var secs, f := ms / 1000, ms % 1000;
    var mins, hours := secs / 60, secs / 60 / 60;
    Pad2(hours) + ":" + Pad2(mins % 60) + ":" + Pad2(secs % 60)
      + "," + [DigitChar(f / 10 / 10), DigitChar(f / 10 % 10), DigitChar(f % 10)]
  }

  lemma Pad2Value(v: nat)
    requires v < 100
    ensures IsDigit(Pad2(v)[0]) && IsDigit(Pad2(v)[1]) && Two(Pad2(v), 0) == v
  {
  }

  /** Reading a canonical timestamp gives back the time it was written from. */
  lemma TimestampRoundTrip(ms: nat)
    requires ms < 360_000_000
    ensures IsTimestamp(FormatTimestamp(ms))
    ensures SrtTimeToMillis(FormatTimestamp(ms)) == ms
  {
    var t := FormatTimestamp(ms);
    var secs, f := ms / 1000, ms % 1000;
    var mins := secs / 60;
    var h, m, s := mins / 60, mins % 60, secs % 60;
    Pad2Value(h);
    Pad2Value(m);
    Pad2Value(s);
    assert t[0..2] == Pad2(h) && t[3..5] == Pad2(m) && t[6..8] == Pad2(s);
    assert Two(t, 0) == h && Two(t, 3) == m && Two(t, 6) == s;
    var c := f / 10;
    assert DigitOf(t[9], 10).value == c / 10 && DigitOf(t[10], 10).value == c % 10;
    assert DigitOf(t[11], 10).value == f % 10;
    assert f == (c / 10 * 10 + c % 10) * 10 + f % 10;
    assert ms == ((h * 60 + m) * 60 + s) * 1000 + f;
  }

  /** Out-of-range minutes and seconds are accepted and simply added up, so
      two different strings can denote the same time. */
  lemma NoRangeCheck()
    ensures IsTimestamp("00:00:75,000") && IsTimestamp("00:01:15,000")
    ensures SrtTimeToMillis("00:00:75,000") == SrtTimeToMillis("00:01:15,000") == 75_000
  {
  }

  // ---------------------------------------------------------------------------
  // The timestamp pair `(\d{2}:\d{2}:\d{2},\d{3}) --> (\d{2}:\d{2}:\d{2},\d{3})`

  const Arrow: string := " --> "

  /** The pattern matches `line` at position `p`. */
  predicate TimePairAt(line: string, p: nat) {
    && p + 29 <= |line|
    && IsTimestamp(line[p..p + 12])
    && line[p + 12..p + 17] == Arrow
    && IsTimestamp(line[p + 17..p + 29])
  }

  /** The pattern matches at `p` and nowhere before: the match `String.match`
      returns for an unanchored pattern. */
  predicate FirstTimePair(line: string, p: nat) {
    TimePairAt(line, p) && forall q :: 0 <= q < p ==> !TimePairAt(line, q)
  }

  /** The leftmost match position at or after `from`. */
  function FindTimePair(line: string, from: nat): (r: Option<nat>)
    ensures r.Some? ==> from <= r.value && TimePairAt(line, r.value)
    ensures r.Some? ==> forall q :: from <= q < r.value ==> !TimePairAt(line, q)
    ensures r.None? ==> forall q :: from <= q ==> !TimePairAt(line, q)
    decreases |line| - from
  {
    if from + 29 > |line| then None
    else if TimePairAt(line, from) then Some(from)
    else FindTimePair(line, from + 1)
  }

  // ---------------------------------------------------------------------------
  // Splitting into blocks: `s.split(/\n\s*\n/)`

  /** `t[..n]` is a match of `\n\s*\n`. */
  predicate IsSeparator(t: string, n: nat) {
    && 2 <= n <= |t|
    && t[0] == '\n' && t[n - 1] == '\n'
    && forall k :: 1 <= k < n - 1 ==> IsWhitespace(t[k])
  }

  /** The length of the match of `\n\s*\n` at the start of `t`. The greedy
      `\s*` runs to the end of the whitespace and backs off to its last line
      feed, so the match is the longest one. */
  function SeparatorAt(t: string): (r: Option<nat>)
    ensures r.Some? ==> IsSeparator(t, r.value)
    ensures r.Some? ==> forall n: nat :: IsSeparator(t, n) ==> n <= r.value
    ensures r.None? ==> forall n: nat :: !IsSeparator(t, n)
  {
    if t != [] && t[0] == '\n' then SeparatorScan(t, 1, None) else None
  }

  /** Scans the whitespace run of `t` from `i`; `best` is the end of the last
      line feed seen so far. */
  function SeparatorScan(t: string, i: nat, best: Option<nat>): (r: Option<nat>)
    requires 1 <= i <= |t| && t[0] == '\n'
    requires forall k :: 1 <= k < i ==> IsWhitespace(t[k])
    requires best.Some? ==> 2 <= best.value <= i && t[best.value - 1] == '\n'
    requires best.Some? ==> forall k :: best.value <= k < i ==> t[k] != '\n'
    requires best.None? ==> forall k :: 1 <= k < i ==> t[k] != '\n'
    ensures r.Some? ==> IsSeparator(t, r.value)
    ensures r.Some? ==> forall n: nat :: IsSeparator(t, n) ==> n <= r.value
    ensures r.None? ==> forall n: nat :: !IsSeparator(t, n)
    decreases |t| - i
  {
    if i < |t| && IsWhitespace(t[i]) then
      SeparatorScan(t, i + 1, if t[i] == '\n' then Some(i + 1) else best)
    else
      assert forall n: nat :: IsSeparator(t, n) ==> n - 1 < i;
      best
  }

  /** The regular-expression split, scanning left to right: `cur` is the
      piece read so far and `rest` the text not yet scanned. At each position
      the separator is tried; a match closes the piece and scanning resumes
      after it, otherwise one character joins the piece. */
  function SplitBlocksFrom(cur: string, rest: string): (r: seq<string>)
    ensures 1 <= |r| <= |rest| + 1
    decreases |rest|
  {
    if rest == [] then [cur]
    else
      match SeparatorAt(rest)
      case Some(n) => [cur] + SplitBlocksFrom([], rest[n..])
      case None => SplitBlocksFrom(cur + [rest[0]], rest[1..])
  }

  /** `s.split(/\n\s*\n/)`: at least one block, and never more blocks
      than characters plus one. */
  function SplitBlocks(s: string): (r: seq<string>)
    ensures 1 <= |r| <= |s| + 1
  {
    SplitBlocksFrom([], s)
  }

  /** The separators the split consumes, in order: the longest match at each
      position where one starts, scanning from the front of `rest`. */
  function Separators(rest: string): seq<string>
    decreases |rest|
  {
    if rest == [] then []
    else
      match SeparatorAt(rest)
      case Some(n) => [rest[..n]] + Separators(rest[n..])
      case None => Separators(rest[1..])
  }

  /** Blocks with the separators between them, in order. */
  function Glue(blocks: seq<string>, seps: seq<string>): string
    requires |blocks| >= 1 && |seps| == |blocks| - 1
    decreases |blocks|
  {
    if |blocks| == 1 then blocks[0]
    else blocks[0] + seps[0] + Glue(blocks[1..], seps[1..])
  }

  /** No match of `\n\s*\n` lies inside `b`. */
  ghost predicate SeparatorFree(b: string) {
    forall i, n: nat :: 0 <= i < |b| ==> !IsSeparator(b[i..], n)
  }

  /** No match of `\n\s*\n` starts inside `b` when `tail` follows it. */
  ghost predicate NoMatchStartsIn(b: string, tail: string) {
    forall i, n: nat :: 0 <= i < |b| ==> !IsSeparator(b[i..] + tail, n)
  }

  /** The split closes block `b` at `sep`: no match starts inside `b`, and
      `sep` is the longest match at its place, before `after`. */
  ghost predicate Closes(b: string, sep: string, after: string) {
    && NoMatchStartsIn(b, sep + after)
    && SeparatorAt(sep + after) == Some(|sep|)
  }

  /** `r` and `seps` cut `s` the way the left-to-right split does: each
      separator is the leftmost and longest match after its block, and the
      last block holds no match. */
  ghost predicate SplitOf(s: string, r: seq<string>, seps: seq<string>) {
    && |r| >= 1 && |seps| == |r| - 1
    && Glue(r, seps) == s
    && SeparatorFree(r[|r| - 1])
    && forall k :: 0 <= k < |seps| ==> Closes(r[k], seps[k], Glue(r[k + 1..], seps[k + 1..]))
  }

  /** What the split of `s` gives: blocks free of separators that, glued
      back with the separators matched between them, rebuild `s`, each
      separator being the leftmost match after its block and the longest
      match at its place. */
  lemma SplitBlocksSpec(s: string)
    ensures |Separators(s)| == |SplitBlocks(s)| - 1
    ensures Glue(SplitBlocks(s), Separators(s)) == s
    ensures forall k :: 0 <= k < |SplitBlocks(s)| ==> SeparatorFree(SplitBlocks(s)[k])
    ensures var r, seps := SplitBlocks(s), Separators(s);
      forall k :: 0 <= k < |seps| ==>
        SeparatorAt(seps[k] + Glue(r[k + 1..], seps[k + 1..])) == Some(|seps[k]|)
    ensures var r, seps := SplitBlocks(s), Separators(s);
      forall k :: 0 <= k < |seps| ==>
        NoMatchStartsIn(r[k], seps[k] + Glue(r[k + 1..], seps[k + 1..]))
  {
    SplitRebuild([], s);
    SplitLongest([], s);
    SplitClean([], s);
    SplitLeftmost([], s);
  }

  /** The split is the one decomposition of `s` that closes every block at
      the leftmost match after it and takes the longest match there. */
  lemma SplitCharacterised(s: string, r: seq<string>, seps: seq<string>)
    ensures SplitOf(s, r, seps) <==> r == SplitBlocks(s) && seps == Separators(s)
  {
    var r0, seps0 := SplitBlocks(s), Separators(s);
    SplitBlocksSpec(s);
    assert SplitOf(s, r0, seps0) by {
      forall k | 0 <= k < |seps0|
        ensures Closes(r0[k], seps0[k], Glue(r0[k + 1..], seps0[k + 1..]))
      {
      }
    }
    if SplitOf(s, r, seps) {
      SplitDetermined([], r, seps);
      assert [] + r[0] == r[0] && [r[0]] + r[1..] == r;
    }
  }

  /** Gluing the blocks and the separators gives back what was split. */
  lemma {:induction false} SplitRebuild(cur: string, rest: string)
    ensures |Separators(rest)| == |SplitBlocksFrom(cur, rest)| - 1
    ensures Glue(SplitBlocksFrom(cur, rest), Separators(rest)) == cur + rest
    decreases |rest|, 1
  {
    if rest != [] {
      match SeparatorAt(rest)
      case Some(n) => RebuildAtSeparator(cur, rest, n);
      case None => RebuildPastChar(cur, rest);
    }
  }

  lemma {:induction false} RebuildAtSeparator(cur: string, rest: string, n: nat)
    requires rest != [] && SeparatorAt(rest) == Some(n)
    ensures |Separators(rest)| == |SplitBlocksFrom(cur, rest)| - 1
    ensures Glue(SplitBlocksFrom(cur, rest), Separators(rest)) == cur + rest
    decreases |rest|, 0
  {
    var sep, after := rest[..n], rest[n..];
    SplitRebuild([], after);
    assert rest == sep + after;
    GlueStep(cur, rest, sep, after, SplitBlocksFrom([], after), Separators(after));
  }

  /** Closing a piece at a separator: the glued rest follows the separator. */
  lemma GlueStep(cur: string, rest: string, sep: string, after: string, b: seq<string>, seps: seq<string>)
    requires rest == sep + after
    requires |seps| == |b| - 1 && Glue(b, seps) == [] + after
    ensures Glue([cur] + b, [sep] + seps) == cur + rest
  {
    GlueCons(cur, sep, b, seps);
    assert [] + after == after;
  }

  lemma {:induction false} RebuildPastChar(cur: string, rest: string)
    requires rest != [] && SeparatorAt(rest) == None
    ensures |Separators(rest)| == |SplitBlocksFrom(cur, rest)| - 1
    ensures Glue(SplitBlocksFrom(cur, rest), Separators(rest)) == cur + rest
    decreases |rest|, 0
  {
    SplitRebuild(cur + [rest[0]], rest[1..]);
    assert cur + [rest[0]] + rest[1..] == cur + rest by {
      assert [rest[0]] + rest[1..] == rest;
    }
  }

  lemma GlueCons(b: string, sep: string, blocks: seq<string>, seps: seq<string>)
    requires |blocks| >= 1 && |seps| == |blocks| - 1
    ensures Glue([b] + blocks, [sep] + seps) == b + sep + Glue(blocks, seps)
  {
    assert ([b] + blocks)[1..] == blocks && ([sep] + seps)[1..] == seps;
  }

  /** Each separator is the longest match where it starts, that is, before
      the text that follows it. */
  lemma {:induction false} SplitLongest(cur: string, rest: string)
    ensures |Separators(rest)| == |SplitBlocksFrom(cur, rest)| - 1
    ensures var r, seps := SplitBlocksFrom(cur, rest), Separators(rest);
      forall k :: 0 <= k < |seps| ==>
        SeparatorAt(seps[k] + Glue(r[k + 1..], seps[k + 1..])) == Some(|seps[k]|)
    decreases |rest|, 1
  {
    SplitRebuild(cur, rest);
    if rest != [] {
      match SeparatorAt(rest)
      case Some(n) => LongestAtSeparator(cur, rest, n);
      case None => SplitLongest(cur + [rest[0]], rest[1..]);
    }
  }

  lemma {:induction false} LongestAtSeparator(cur: string, rest: string, n: nat)
    requires rest != [] && SeparatorAt(rest) == Some(n)
    ensures |Separators(rest)| == |SplitBlocksFrom(cur, rest)| - 1
    ensures var r, seps := SplitBlocksFrom(cur, rest), Separators(rest);
      forall k :: 0 <= k < |seps| ==>
        SeparatorAt(seps[k] + Glue(r[k + 1..], seps[k + 1..])) == Some(|seps[k]|)
    decreases |rest|, 0
  {
    var sep, after := rest[..n], rest[n..];
    SplitRebuild([], after);
    SplitLongest([], after);
    assert rest == sep + after;
    LongestStep(cur, rest, sep, after, SplitBlocksFrom([], after), Separators(after));
  }

  /** Closing a piece at the longest separator keeps every separator the
      longest at its place. */
  lemma LongestStep(cur: string, rest: string, sep: string, after: string, b: seq<string>, seps: seq<string>)
    requires rest == sep + after && SeparatorAt(rest) == Some(|sep|)
    requires |seps| == |b| - 1 && Glue(b, seps) == [] + after
    requires forall k :: 0 <= k < |seps| ==>
      SeparatorAt(seps[k] + Glue(b[k + 1..], seps[k + 1..])) == Some(|seps[k]|)
    ensures var r, all := [cur] + b, [sep] + seps;
      forall k :: 0 <= k < |all| ==>
        SeparatorAt(all[k] + Glue(r[k + 1..], all[k + 1..])) == Some(|all[k]|)
  {
    var r, all := [cur] + b, [sep] + seps;
    forall k | 0 <= k < |all|
      ensures SeparatorAt(all[k] + Glue(r[k + 1..], all[k + 1..])) == Some(|all[k]|)
    {
      if k == 0 {
        assert r[1..] == b && all[1..] == seps && [] + after == after;
      } else {
        assert all[k] == seps[k - 1] && r[k + 1..] == b[k..] && all[k + 1..] == seps[k..];
      }
    }
  }

  /** A match at the front of `t` is still one when more text follows. */
  lemma SeparatorPrefix(t: string, u: string, n: nat)
    requires IsSeparator(t, n)
    ensures IsSeparator(t + u, n)
  {
    assert forall k :: 0 <= k < |t| ==> (t + u)[k] == t[k];
  }

  /** No block holds a separator, provided none starts inside the piece
      already read. */
  lemma {:induction false} SplitClean(cur: string, rest: string)
    requires forall i, n: nat :: 0 <= i < |cur| ==> !IsSeparator((cur + rest)[i..], n)
    ensures forall k :: 0 <= k < |SplitBlocksFrom(cur, rest)| ==> SeparatorFree(SplitBlocksFrom(cur, rest)[k])
    decreases |rest|
  {
    if rest == [] {
      assert cur + rest == cur;
    } else {
      match SeparatorAt(rest)
      case Some(n) =>
        assert SeparatorFree(cur) by {
          forall i, m: nat | 0 <= i < |cur|
            ensures !IsSeparator(cur[i..], m)
          {
            assert (cur + rest)[i..] == cur[i..] + rest;
            if IsSeparator(cur[i..], m) {
              SeparatorPrefix(cur[i..], rest, m);
            }
          }
        }
        SplitClean([], rest[n..]);
      case None =>
        var cur', rest' := cur + [rest[0]], rest[1..];
        assert cur' + rest' == cur + rest by { assert [rest[0]] + rest[1..] == rest; }
        forall i, m: nat | 0 <= i < |cur'|
          ensures !IsSeparator((cur' + rest')[i..], m)
        {
          if i == |cur| {
            assert (cur + rest)[i..] == rest;
          }
        }
        SplitClean(cur', rest');
    }
  }

  /** No match starts inside a block before the text that follows it, so
      each separator is the leftmost match after its block. */
  lemma {:induction false} SplitLeftmost(cur: string, rest: string)
    requires NoMatchStartsIn(cur, rest)
    ensures |Separators(rest)| == |SplitBlocksFrom(cur, rest)| - 1
    ensures var r, seps := SplitBlocksFrom(cur, rest), Separators(rest);
      forall k :: 0 <= k < |seps| ==>
        NoMatchStartsIn(r[k], seps[k] + Glue(r[k + 1..], seps[k + 1..]))
    decreases |rest|, 1
  {
    SplitRebuild(cur, rest);
    if rest != [] {
      match SeparatorAt(rest)
      case Some(n) => LeftmostAtSeparator(cur, rest, n);
      case None => LeftmostPastChar(cur, rest);
    }
  }

  lemma {:induction false} LeftmostAtSeparator(cur: string, rest: string, n: nat)
    requires rest != [] && SeparatorAt(rest) == Some(n)
    requires NoMatchStartsIn(cur, rest)
    ensures |Separators(rest)| == |SplitBlocksFrom(cur, rest)| - 1
    ensures var r, seps := SplitBlocksFrom(cur, rest), Separators(rest);
      forall k :: 0 <= k < |seps| ==>
        NoMatchStartsIn(r[k], seps[k] + Glue(r[k + 1..], seps[k + 1..]))
    decreases |rest|, 0
  {
    var sep, after := rest[..n], rest[n..];
    SplitRebuild([], after);
    SplitLeftmost([], after);
    assert rest == sep + after;
    LeftmostStep(cur, rest, sep, after, SplitBlocksFrom([], after), Separators(after));
  }

  /** Closing a piece at a separator keeps every block free of matches
      starting inside it. */
  lemma LeftmostStep(cur: string, rest: string, sep: string, after: string, b: seq<string>, seps: seq<string>)
    requires rest == sep + after && NoMatchStartsIn(cur, rest)
    requires |seps| == |b| - 1 && Glue(b, seps) == [] + after
    requires forall k :: 0 <= k < |seps| ==>
      NoMatchStartsIn(b[k], seps[k] + Glue(b[k + 1..], seps[k + 1..]))
    ensures var r, all := [cur] + b, [sep] + seps;
      forall k :: 0 <= k < |all| ==>
        NoMatchStartsIn(r[k], all[k] + Glue(r[k + 1..], all[k + 1..]))
  {
    var r, all := [cur] + b, [sep] + seps;
    forall k | 0 <= k < |all|
      ensures NoMatchStartsIn(r[k], all[k] + Glue(r[k + 1..], all[k + 1..]))
    {
      if k == 0 {
        assert r[1..] == b && all[1..] == seps && [] + after == after;
      } else {
        assert r[k] == b[k - 1] && all[k] == seps[k - 1] && r[k + 1..] == b[k..] && all[k + 1..] == seps[k..];
      }
    }
  }

  lemma {:induction false} LeftmostPastChar(cur: string, rest: string)
    requires rest != [] && SeparatorAt(rest) == None
    requires NoMatchStartsIn(cur, rest)
    ensures |Separators(rest)| == |SplitBlocksFrom(cur, rest)| - 1
    ensures var r, seps := SplitBlocksFrom(cur, rest), Separators(rest);
      forall k :: 0 <= k < |seps| ==>
        NoMatchStartsIn(r[k], seps[k] + Glue(r[k + 1..], seps[k + 1..]))
    decreases |rest|, 0
  {
    var cur', rest' := cur + [rest[0]], rest[1..];
    forall i, m: nat | 0 <= i < |cur'|
      ensures !IsSeparator(cur'[i..] + rest', m)
    {
      if i < |cur| {
        assert cur'[i..] + rest' == cur[i..] + rest by {
          assert cur'[i..] == cur[i..] + [rest[0]];
          assert [rest[0]] + rest' == rest;
        }
      } else {
        assert cur'[i..] + rest' == rest;
      }
    }
    SplitLeftmost(cur', rest');
  }

  /** Text in which no match starts, given what follows it, is copied into
      the current piece. */
  lemma {:induction false} SplitPast(cur: string, x: string, tail: string)
    requires NoMatchStartsIn(x, tail)
    ensures SplitBlocksFrom(cur, x + tail) == SplitBlocksFrom(cur + x, tail)
    ensures Separators(x + tail) == Separators(tail)
    decreases |x|
  {
    if x == [] {
      assert x + tail == tail && cur + x == cur;
    } else {
      var rest := x + tail;
      assert SeparatorAt(rest) == None by {
        assert x[0..] + tail == rest;
      }
      assert NoMatchStartsIn(x[1..], tail) by {
        forall i, n: nat | 0 <= i < |x| - 1
          ensures !IsSeparator(x[1..][i..] + tail, n)
        {
          assert x[1..][i..] == x[i + 1..];
        }
      }
      SplitPast(cur + [x[0]], x[1..], tail);
      assert rest[1..] == x[1..] + tail;
      assert cur + [x[0]] + x[1..] == cur + x;
    }
  }

  /** A decomposition that cuts where the split does is the split: read
      from a piece `cur`, the blocks come back with `cur` before the first. */
  lemma {:induction false} SplitDetermined(cur: string, r: seq<string>, seps: seq<string>)
    requires |r| >= 1 && |seps| == |r| - 1 && SplitOf(Glue(r, seps), r, seps)
    ensures SplitBlocksFrom(cur, Glue(r, seps)) == [cur + r[0]] + r[1..]
    ensures Separators(Glue(r, seps)) == seps
    decreases |r|
  {
    if |r| == 1 {
      assert NoMatchStartsIn(r[0], []) by {
        assert forall i :: 0 <= i < |r[0]| ==> r[0][i..] + [] == r[0][i..];
      }
      SplitPast(cur, r[0], []);
      assert r[0] + [] == r[0];
    } else {
      var after := Glue(r[1..], seps[1..]);
      assert Glue(r, seps) == r[0] + (seps[0] + after);
      assert Closes(r[0], seps[0], after);
      SplitPast(cur, r[0], seps[0] + after);
      SplitOfTail(Glue(r, seps), r, seps);
      SplitDetermined([], r[1..], seps[1..]);
      DeterminedCut(cur + r[0], seps[0], after, r[1..]);
      assert r == [r[0]] + r[1..] && seps == [seps[0]] + seps[1..];
    }
  }

  /** At the longest match the split closes the piece and starts afresh. */
  lemma DeterminedCut(cur: string, sep: string, after: string, b: seq<string>)
    requires SeparatorAt(sep + after) == Some(|sep|) && |b| >= 1
    requires SplitBlocksFrom([], after) == [[] + b[0]] + b[1..]
    ensures SplitBlocksFrom(cur, sep + after) == [cur] + b
    ensures Separators(sep + after) == [sep] + Separators(after)
  {
    var rest := sep + after;
    assert rest[..|sep|] == sep && rest[|sep|..] == after;
    assert [] + b[0] == b[0] && [b[0]] + b[1..] == b;
  }

  /** Dropping the first block and its separator leaves a split of the rest. */
  lemma SplitOfTail(s: string, r: seq<string>, seps: seq<string>)
    requires SplitOf(s, r, seps) && |r| > 1
    ensures SplitOf(Glue(r[1..], seps[1..]), r[1..], seps[1..])
  {
    var r', seps' := r[1..], seps[1..];
    assert r'[|r'| - 1] == r[|r| - 1];
    forall k | 0 <= k < |seps'|
      ensures Closes(r'[k], seps'[k], Glue(r'[k + 1..], seps'[k + 1..]))
    {
      assert r'[k + 1..] == r[k + 2..] && seps'[k + 1..] == seps[k + 2..];
      assert Closes(r[k + 1], seps[k + 1], Glue(r[k + 2..], seps[k + 2..]));
    }
  }

  /** No separator can start inside `x`: each line feed of `x` is followed,
      inside `x`, by a character that is not whitespace. */
  predicate NoBlankLineIn(x: string) {
    forall i :: 0 <= i < |x| && x[i] == '\n' ==> i + 1 < |x| && !IsWhitespace(x[i + 1])
  }

  /** Text with no blank line in it is copied into the current piece. */
  lemma {:induction false} SplitPastText(cur: string, x: string, tail: string)
    requires NoBlankLineIn(x)
    ensures SplitBlocksFrom(cur, x + tail) == SplitBlocksFrom(cur + x, tail)
    decreases |x|
  {
    if x == [] {
      assert x + tail == tail && cur + x == cur;
    } else {
      var rest := x + tail;
      assert rest[0] == x[0];
      if x[0] == '\n' {
        assert rest[1] == x[1];
        assert SeparatorScan(rest, 1, None) == None;
      }
      assert SeparatorAt(rest) == None;
      assert rest[1..] == x[1..] + tail;
      assert NoBlankLineIn(x[1..]) by {
        forall i | 0 <= i < |x| - 1 && x[1..][i] == '\n'
          ensures i + 1 < |x| - 1 && !IsWhitespace(x[1..][i + 1])
        {
          assert x[i + 1] == '\n';
        }
      }
      SplitPastText(cur + [x[0]], x[1..], tail);
      assert cur + [x[0]] + x[1..] == cur + x;
    }
  }

  /** A blank line of two or three line feeds before a non-blank character
      closes the current piece. */
  lemma SplitAtBlankLine(cur: string, sep: string, y: string)
    requires sep == "\n\n" || sep == "\n\n\n"
    requires y != [] && !IsWhitespace(y[0])
    ensures SplitBlocksFrom(cur, sep + y) == [cur] + SplitBlocksFrom([], y)
  {
    var t := sep + y;
    assert t[|sep|] == y[0];
    assert IsSeparator(t, |sep|);
    assert SeparatorAt(t) == Some(|sep|);
    assert t[|sep|..] == y;
  }

  // ---------------------------------------------------------------------------
  // Parsing

  /** When a block survives: line 0 starts with an integer (after optional
      whitespace), and line 1 exists and holds a timestamp pair somewhere. */
  ghost predicate Accepted(block: string) {
    var lines := Split(block, '\n');
    ParseInt(lines[0]).Some? && |lines| >= 2 && exists p: nat :: TimePairAt(lines[1], p)
  }

  /** The time fields of `c` are well-formed and their millisecond values
      agree with the strings. */
  predicate Timed(c: Caption) {
    && IsTimestamp(c.startTime) && IsTimestamp(c.endTime)
    && c.startMs == SrtTimeToMillis(c.startTime)
    && c.endMs == SrtTimeToMillis(c.endTime)
  }

  /** `c` is what the block says: the id read from line 0, the first
      timestamp pair of line 1 verbatim with its millisecond values, and
      lines 2 onward joined with single spaces. */
  ghost predicate Describes(block: string, c: Caption) {
    var lines := Split(block, '\n');
    && |lines| >= 2
    && ParseInt(lines[0]) == Some(c.id)
    && (exists p: nat :: FirstTimePair(lines[1], p)
                    && c.startTime == lines[1][p..p + 12]
                    && c.endTime == lines[1][p + 17..p + 29])
    && Timed(c)
    && c.text == Join(lines[2..], " ")
  }

  /** The callback of `parseSRT` for one block; `None` drops the block. */
  function ParseBlock(block: string): (r: Option<Caption>)
    ensures r.Some? ==> Timed(r.value)
  {
    var lines := Split(block, '\n');
    match ParseInt(lines[0])
    case None => None
    case Some(id) =>
      if |lines| < 2 || lines[1] == [] then None
      else
        var line := lines[1];
        var text := Join(lines[2..], " ");
        match FindTimePair(line, 0)
        case None => None
        case Some(p) =>
          var startTime := line[p..p + 12];
          var endTime := line[p + 17..p + 29];
          Some(Caption(id, startTime, endTime, SrtTimeToMillis(startTime), SrtTimeToMillis(endTime), text))
  }

  /** A block survives exactly when it is accepted, and then the caption is
      what the block says, its text on one line. */
  lemma ParseBlockSpec(block: string)
    ensures ParseBlock(block).Some? <==> Accepted(block)
    ensures ParseBlock(block).Some? ==> Describes(block, ParseBlock(block).value)
    ensures ParseBlock(block).Some? ==> '\n' !in ParseBlock(block).value.text
  {
    var lines := Split(block, '\n');
    if ParseInt(lines[0]).Some? && |lines| >= 2 && lines[1] != [] && FindTimePair(lines[1], 0).Some? {
      ParseBlockFound(block, lines, FindTimePair(lines[1], 0).value);
    }
  }

  /** The accepting path of ParseBlock: the caption it builds is what the
      block says. */
  lemma ParseBlockFound(block: string, lines: seq<string>, p: nat)
    requires lines == Split(block, '\n') && |lines| >= 2 && lines[1] != []
    requires ParseInt(lines[0]).Some? && FindTimePair(lines[1], 0) == Some(p)
    ensures ParseBlock(block).Some? && Accepted(block)
    ensures Describes(block, ParseBlock(block).value)
    ensures '\n' !in ParseBlock(block).value.text
  {
    assert '\n' !in Join(lines[2..], " ") by { JoinKeepsOut(lines[2..], " ", '\n'); }
    assert FirstTimePair(lines[1], p);
  }

  /** A character absent from the pieces and the glue is absent from the
      joined string. */
  lemma {:induction false} JoinKeepsOut(parts: seq<string>, sep: string, c: char)
    requires forall i :: 0 <= i < |parts| ==> c !in parts[i]
    requires c !in sep
    ensures c !in Join(parts, sep)
  {
    if |parts| > 1 {
      JoinKeepsOut(parts[1..], sep, c);
    }
  }

  /** Keeps the captions of the surviving blocks, in block order. */
  function ParseBlocks(blocks: seq<string>): (r: seq<Caption>)
    ensures |r| <= |blocks|
    ensures forall i :: 0 <= i < |r| ==> Timed(r[i]) && '\n' !in r[i].text
  {
    if blocks == [] then []
    else
      var rest := ParseBlocks(blocks[1..]);
      ParseBlockSpec(blocks[0]);
      match ParseBlock(blocks[0])
      case Some(c) => [c] + rest
      case None => rest
  }

  /** A caption is kept exactly when some block parses to it: nothing is
      invented and nothing that parses is lost. */
  lemma {:induction false} ParseBlocksMembers(blocks: seq<string>)
    ensures forall c :: c in ParseBlocks(blocks) <==>
      exists i :: 0 <= i < |blocks| && ParseBlock(blocks[i]) == Some(c)
  {
    if blocks != [] {
      var tail := blocks[1..];
      ParseBlocksMembers(tail);
      forall c | exists i :: 0 <= i < |blocks| && ParseBlock(blocks[i]) == Some(c)
        ensures c in ParseBlocks(blocks)
      {
        var i :| 0 <= i < |blocks| && ParseBlock(blocks[i]) == Some(c);
        if i > 0 {
          assert tail[i - 1] == blocks[i];
        }
      }
      forall c | c in ParseBlocks(blocks) && c !in ParseBlocks(tail)
        ensures ParseBlock(blocks[0]) == Some(c)
      {
      }
    }
  }

  /** A dropped block does not stop the blocks after it: parsing distributes
      over concatenation of block lists. */
  lemma {:induction false} ParseBlocksAppend(a: seq<string>, b: seq<string>)
    ensures ParseBlocks(a + b) == ParseBlocks(a) + ParseBlocks(b)
  {
    if a == [] {
      assert a + b == b;
    } else {
      assert (a + b)[0] == a[0];
      assert (a + b)[1..] == a[1..] + b;
      ParseBlocksAppend(a[1..], b);
    }
  }

  /** `parseSRT`: trim, split into blocks on blank lines, parse each block
      and drop the ones that fail. */
  function ParseSrt(srt: string): (r: seq<Caption>)
    ensures |r| <= |SplitBlocks(Trim(srt))|
    ensures forall i :: 0 <= i < |r| ==> Timed(r[i]) && '\n' !in r[i].text
  {
    var blocks := SplitBlocks(Trim(srt));
    ParseBlocks(blocks)
  }

  /** An empty reply yields an empty caption list. */
  lemma ParseEmpty()
    ensures ParseSrt("") == []
  {
    assert SplitBlocks(Trim("")) == [[]];
    assert Split([], '\n') == [[]];
    assert ParseInt([]) == None;
  }

  // ---------------------------------------------------------------------------
  // Serializing

  function TimeLine(c: Caption): string {
    c.startTime + Arrow + c.endTime
  }

  /** One exported cue: `id\nstart --> end\ntext\n`. */
  function CueText(c: Caption): string {
    IntToString(c.id) + "\n" + TimeLine(c) + "\n" + c.text + "\n"
  }

  /** `captions.map(...)` with the cue template. */
  function CueTexts(cs: seq<Caption>): (r: seq<string>)
    ensures |r| == |cs|
  {
    if cs == [] then [] else [CueText(cs[0])] + CueTexts(cs[1..])
  }

  /** The export text: every cue in list order, joined with a line feed. */
  function Serialize(cs: seq<Caption>): (r: string)
    ensures r == [] <==> cs == []
  {
    Join(CueTexts(cs), "\n")
  }

  /** Captions that survive an export and re-import unchanged: well-formed
      times, and a text on one line without leading or trailing whitespace. */
  predicate Exportable(c: Caption) {
    && Timed(c)
    && '\n' !in c.text
    && (c.text == [] || (!IsWhitespace(c.text[0]) && !IsWhitespace(c.text[|c.text| - 1])))
  }

  /** The block the parser sees for an exported cue. */
  function Core(c: Caption): string {
    if c.text == [] then IntToString(c.id) + "\n" + TimeLine(c)
    else IntToString(c.id) + "\n" + TimeLine(c) + "\n" + c.text
  }

  /** The whitespace an exported cue ends with. */
  function Trailer(c: Caption): string {
    if c.text == [] then "\n\n" else "\n"
  }

  lemma TrailerWhitespace(c: Caption)
    ensures AllWhitespace(Trailer(c))
  {
  }

  lemma CueShape(c: Caption)
    ensures CueText(c) == Core(c) + Trailer(c)
  {
  }

  lemma TimeLineShape(c: Caption)
    requires Timed(c)
    ensures |TimeLine(c)| == 29 && '\n' !in TimeLine(c) && IsDigit(TimeLine(c)[0])
    ensures IsDigit(TimeLine(c)[28])
    ensures TimePairAt(TimeLine(c), 0)
    ensures TimeLine(c)[0..12] == c.startTime && TimeLine(c)[17..29] == c.endTime
  {
    PairShape(c.startTime, c.endTime);
  }

  /** Two timestamps around the arrow form a one-line match of the pattern
      at its start, from the first digit to the last. */
  lemma PairShape(a: string, b: string)
    requires IsTimestamp(a) && IsTimestamp(b)
    ensures var t := a + Arrow + b;
      && |t| == 29 && '\n' !in t && IsDigit(t[0]) && IsDigit(t[28])
      && TimePairAt(t, 0) && t[0..12] == a && t[17..29] == b
  {
    var t := a + Arrow + b;
    assert t[0..12] == a && t[12..17] == Arrow && t[17..29] == b;
    assert forall i :: 0 <= i < 12 ==> t[i] == a[i] && t[17 + i] == b[i];
  }

  lemma CoreShape(c: Caption)
    requires Exportable(c)
    ensures Core(c) != [] && !IsWhitespace(Core(c)[0]) && !IsWhitespace(Core(c)[|Core(c)| - 1])
    ensures NoBlankLineIn(Core(c))
  {
    TimeLineShape(c);
    var a, t := IntToString(c.id), TimeLine(c);
    var k := Core(c);
    if c.text == [] {
      assert k == a + ['\n'] + t;
      forall i | 0 <= i < |k| && k[i] == '\n'
        ensures i + 1 < |k| && !IsWhitespace(k[i + 1])
      {
      }
    } else {
      assert k == a + ['\n'] + t + ['\n'] + c.text;
      forall i | 0 <= i < |k| && k[i] == '\n'
        ensures i + 1 < |k| && !IsWhitespace(k[i + 1])
      {
      }
    }
  }

  /** The lines of an exported cue's block: id, timing line and, when the
      text is not empty, the text. */
  function CoreLines(c: Caption): seq<string> {
    if c.text == [] then [IntToString(c.id), TimeLine(c)]
    else [IntToString(c.id), TimeLine(c), c.text]
  }

  lemma CoreSplit(c: Caption)
    requires Exportable(c)
    ensures Split(Core(c), '\n') == CoreLines(c)
  {
    TimeLineShape(c);
    var a, t := IntToString(c.id), TimeLine(c);
    if c.text == [] {
      SplitNone(t, '\n');
      SplitCons(a, '\n', t);
      assert Core(c) == a + ['\n'] + t;
    } else {
      SplitNone(c.text, '\n');
      SplitCons(t, '\n', c.text);
      SplitCons(a, '\n', t + ['\n'] + c.text);
      assert Core(c) == a + ['\n'] + (t + ['\n'] + c.text);
    }
  }

  /** Parsing the block of an exported cue gives the cue back. */
  lemma ParseCore(c: Caption)
    requires Exportable(c)
    ensures ParseBlock(Core(c)) == Some(c)
  {
    var lines := CoreLines(c);
    var a, t := IntToString(c.id), TimeLine(c);
    assert Split(Core(c), '\n') == lines by { CoreSplit(c); }
    assert ParseInt(a) == Some(c.id) by {
      ParseIntOfIntToString([], c.id, []);
      assert [] + a + [] == a;
    }
    assert t != [] && FindTimePair(t, 0) == Some(0) && c.startTime == t[0..12] && c.endTime == t[17..29] by {
      TimeLineShape(c);
    }
    assert c.text == Join(lines[2..], " ") by {
      if c.text == [] {
        assert lines[2..] == [];
      } else {
        assert lines[2..] == [c.text];
      }
    }
    ParseBlockOf(Core(c), lines, c);
  }

  /** A block whose lines are an id, a timing line starting with the pair
      and the text lines describes the caption built from them. */
  lemma ParseBlockOf(block: string, lines: seq<string>, c: Caption)
    requires Split(block, '\n') == lines && |lines| >= 2 && lines[1] != []
    requires ParseInt(lines[0]) == Some(c.id) && FindTimePair(lines[1], 0) == Some(0)
    requires c.startTime == lines[1][0..12] && c.endTime == lines[1][17..29]
    requires Timed(c) && c.text == Join(lines[2..], " ")
    ensures ParseBlock(block) == Some(c)
  {
  }

  /** The export text before its final whitespace: the cue blocks separated
      by blank lines. */
  function Body(cs: seq<Caption>): string
    requires |cs| >= 1
    decreases |cs|
  {
    if |cs| == 1 then Core(cs[0])
    else Core(cs[0]) + (Trailer(cs[0]) + "\n" + Body(cs[1..]))
  }

  /** The body of an export neither starts nor ends with whitespace. */
  lemma BodyEnds(cs: seq<Caption>)
    requires |cs| >= 1
    requires forall i :: 0 <= i < |cs| ==> Exportable(cs[i])
    ensures Body(cs) != [] && !IsWhitespace(Body(cs)[0]) && !IsWhitespace(Body(cs)[|Body(cs)| - 1])
  {
    forall i | 0 <= i < |cs|
      ensures Framed(Core(cs[i]))
    {
      CoreShape(cs[i]);
    }
    BodyFramed(cs);
  }

  /** `x` starts and ends with a visible character. */
  predicate Framed(x: string) {
    x != [] && !IsWhitespace(x[0]) && !IsWhitespace(x[|x| - 1])
  }

  lemma {:induction false} BodyFramed(cs: seq<Caption>)
    requires |cs| >= 1
    requires forall i :: 0 <= i < |cs| ==> Framed(Core(cs[i]))
    ensures Framed(Body(cs))
    decreases |cs|
  {
    if |cs| > 1 {
      var tail := cs[1..];
      assert Framed(Body(tail)) by {
        assert forall i :: 0 <= i < |tail| ==> tail[i] == cs[i + 1];
        BodyFramed(tail);
      }
      FramedEnds(Core(cs[0]), Trailer(cs[0]) + "\n", Body(tail));
    }
  }

  /** Gluing `k` and `b` around a separator keeps the first character of `k`
      and the last of `b`. */
  lemma FramedEnds(k: string, sep: string, b: string)
    requires Framed(k) && Framed(b)
    ensures Framed(k + (sep + b))
  {
    var r := k + (sep + b);
    assert r[0] == k[0] && r[|r| - 1] == b[|b| - 1];
  }

  lemma SerializeCons(cs: seq<Caption>)
    requires |cs| >= 2
    ensures Serialize(cs) == CueText(cs[0]) + "\n" + Serialize(cs[1..])
  {
    assert CueTexts(cs)[1..] == CueTexts(cs[1..]);
  }

  lemma {:induction false} SerializeShape(cs: seq<Caption>)
    requires |cs| >= 1
    ensures Serialize(cs) == Body(cs) + Trailer(cs[|cs| - 1])
    decreases |cs|
  {
    CueShape(cs[0]);
    if |cs| == 1 {
      assert CueTexts(cs) == [CueText(cs[0])];
      assert Serialize(cs) == CueText(cs[0]);
    } else {
      var tail := cs[1..];
      assert tail[|tail| - 1] == cs[|cs| - 1];
      SerializeCons(cs);
      SerializeShape(tail);
      Regroup(Serialize(cs), CueText(cs[0]), Serialize(tail), Core(cs[0]), Trailer(cs[0]),
        Body(tail), Trailer(cs[|cs| - 1]), Body(cs));
    }
  }

  /** The string identity behind SerializeShape, over plain strings. */
  lemma Regroup(s: string, c: string, s1: string, k: string, t: string, b: string, z: string, body: string)
    requires s == c + "\n" + s1 && c == k + t && s1 == b + z
    requires body == k + (t + "\n" + b)
    ensures s == body + z
  {
  }

  /** The parser-side view of an export: the block of each cue. */
  function Cores(cs: seq<Caption>): (r: seq<string>)
    ensures |r| == |cs|
    ensures forall i :: 0 <= i < |cs| ==> r[i] == Core(cs[i])
  {
    if cs == [] then []
    else
      var r := [Core(cs[0])] + Cores(cs[1..]);
      assert forall i :: 0 <= i < |cs| ==> r[i] == Core(cs[i]) by {
        forall i | 0 <= i < |cs|
          ensures r[i] == Core(cs[i])
        {
          if i > 0 {
            assert r[i] == Cores(cs[1..])[i - 1] && cs[1..][i - 1] == cs[i];
          }
        }
      }
      r
  }

  lemma {:induction false} SplitBody(cs: seq<Caption>)
    requires |cs| >= 1
    requires forall i :: 0 <= i < |cs| ==> Exportable(cs[i])
    ensures SplitBlocks(Body(cs)) == Cores(cs)
  {
    if |cs| == 1 {
      var k := Core(cs[0]);
      CoreShape(cs[0]);
      SplitPastText([], k, []);
      assert k + [] == k && [] + k == k;
    } else {
      assert forall i :: 0 <= i < |cs| - 1 ==> cs[1..][i] == cs[i + 1];
      SplitBody(cs[1..]);
      BodyEnds(cs[1..]);
      SplitBodyCons(cs);
    }
  }

  /** One more cue in front of the export body adds its block in front. */
  lemma {:induction false} SplitBodyCons(cs: seq<Caption>)
    requires |cs| >= 2 && Exportable(cs[0])
    requires Body(cs[1..]) != [] && !IsWhitespace(Body(cs[1..])[0])
    ensures SplitBlocks(Body(cs)) == [Core(cs[0])] + SplitBlocks(Body(cs[1..]))
  {
    CoreShape(cs[0]);
    SplitBodyStep(Core(cs[0]), Trailer(cs[0]) + "\n", Body(cs[1..]));
  }

  /** A cue block, a blank line and a body that starts visibly split into
      the block and the blocks of the body. */
  lemma {:induction false} SplitBodyStep(k: string, sep: string, rest: string)
    requires NoBlankLineIn(k)
    requires sep == "\n\n" || sep == "\n\n\n"
    requires rest != [] && !IsWhitespace(rest[0])
    ensures SplitBlocks(k + (sep + rest)) == [k] + SplitBlocks(rest)
  {
    SplitPastText([], k, sep + rest);
    assert [] + k == k;
    SplitAtBlankLine(k, sep, rest);
  }

  lemma ParseCores(cs: seq<Caption>)
    requires forall i :: 0 <= i < |cs| ==> Exportable(cs[i])
    ensures ParseBlocks(Cores(cs)) == cs
  {
    var ks := Cores(cs);
    forall i | 0 <= i < |cs|
      ensures ParseBlock(ks[i]) == Some(cs[i])
    {
      ParseCore(cs[i]);
    }
    ParseEach(ks, cs);
  }

  /** One step of ParseBlocks: a block that parses is kept in front of the rest. */
  lemma ParseBlocksStep(ks: seq<string>, c: Caption, rest: seq<Caption>)
    requires ks != [] && ParseBlock(ks[0]) == Some(c) && ParseBlocks(ks[1..]) == rest
    ensures ParseBlocks(ks) == [c] + rest
  {
  }

  /** Blocks that each parse to a caption give those captions, in order. */
  lemma {:induction false} ParseEach(ks: seq<string>, cs: seq<Caption>)
    requires |ks| == |cs|
    requires forall i :: 0 <= i < |ks| ==> ParseBlock(ks[i]) == Some(cs[i])
    ensures ParseBlocks(ks) == cs
  {
    if ks != [] {
      var tk, tc := ks[1..], cs[1..];
      assert forall i :: 0 <= i < |tk| ==> ParseBlock(tk[i]) == Some(tc[i]) by {
        forall i | 0 <= i < |tk| ensures ParseBlock(tk[i]) == Some(tc[i]) {
          assert tk[i] == ks[i + 1] && tc[i] == cs[i + 1];
        }
      }
      ParseEach(tk, tc);
      ParseBlocksStep(ks, cs[0], tc);
      assert cs == [cs[0]] + tc;
    }
  }

  /** Export followed by re-import is the identity on exportable caption
      lists: ids, time strings, millisecond values and texts all come back. */
  lemma RoundTrip(cs: seq<Caption>)
    requires forall i :: 0 <= i < |cs| ==> Exportable(cs[i])
    ensures ParseSrt(Serialize(cs)) == cs
  {
    if cs == [] {
      ParseEmpty();
    } else {
      BodyEnds(cs);
      TrimSerialize(cs);
      SplitBody(cs);
      ParseCores(cs);
    }
  }

  /** Trimming an export whose body starts and ends with a visible character
      leaves the body: only the whitespace after the last cue goes. */
  lemma TrimSerialize(cs: seq<Caption>)
    requires |cs| >= 1
    requires Body(cs) != [] && !IsWhitespace(Body(cs)[0]) && !IsWhitespace(Body(cs)[|Body(cs)| - 1])
    ensures Trim(Serialize(cs)) == Body(cs)
  {
    SerializeShape(cs);
    TrailerWhitespace(cs[|cs| - 1]);
    TrimFramed(Serialize(cs), Body(cs), Trailer(cs[|cs| - 1]));
  }
}

/** The caption list as the editor uses it: the caption shown at the current
    playback time, and the in-place text edit of every caption with a given
    id. */
module Timeline {
  import opened Text
  import opened Srt

  /** Playback time `t` (seconds) lies inside `c`, both ends included. The
      caption's bounds are its millisecond values over 1000. */
  predicate Covers(c: Caption, t: real) {
    (c.startMs as real) / 1000.0 <= t <= (c.endMs as real) / 1000.0
  }

  /** `captions.find(...)`: the first caption in list order that covers `t`. */
  function ActiveCaption(cs: seq<Caption>, t: real): (r: Option<Caption>)
    ensures r.None? <==> forall i :: 0 <= i < |cs| ==> !Covers(cs[i], t)
    ensures r.Some? ==> exists i :: 0 <= i < |cs| && cs[i] == r.value && Covers(cs[i], t)
                          && forall j :: 0 <= j < i ==> !Covers(cs[j], t)
  {
    if cs == [] then None
    else if Covers(cs[0], t) then Some(cs[0])
    else
      var r := ActiveCaption(cs[1..], t);
      assert forall i :: 1 <= i < |cs| ==> cs[i] == cs[1..][i - 1];
      if r.Some? then
        var i :| 0 <= i < |cs| - 1 && cs[1..][i] == r.value && Covers(cs[1..][i], t)
                  && forall j :: 0 <= j < i ==> !Covers(cs[1..][j], t);
        assert cs[i + 1] == r.value && forall j :: 0 <= j < i + 1 ==> !Covers(cs[j], t);
        r
      else
        r
  }

  /** The search stops at the first covering caption: whatever follows a
      prefix that already covers `t` is never looked at. */
  lemma {:induction false} ActiveAppend(a: seq<Caption>, b: seq<Caption>, t: real)
    ensures ActiveCaption(a + b, t) == if ActiveCaption(a, t).Some? then ActiveCaption(a, t) else ActiveCaption(b, t)
  {
    if a == [] {
      assert a + b == b;
    } else {
      assert (a + b)[0] == a[0];
      assert (a + b)[1..] == a[1..] + b;
      ActiveAppend(a[1..], b, t);
    }
  }

  /** Two captions that share a boundary: at the shared instant the earlier
      one in the list is shown. */
  lemma SharedBoundary(a: Caption, b: Caption)
    requires a.startMs <= a.endMs == b.startMs <= b.endMs
    ensures ActiveCaption([a, b], (a.endMs as real) / 1000.0) == Some(a)
    ensures ActiveCaption([b, a], (a.endMs as real) / 1000.0) == Some(b)
  {
  }

  /** A concrete instance: cues 1 (0-2 s) and 2 (2-4 s) at 2.0 s show cue 1. */
  lemma BoundaryExample()
    ensures var one := Caption(1, "00:00:00,000", "00:00:02,000", 0, 2000, "a");
            var two := Caption(2, "00:00:02,000", "00:00:04,000", 2000, 4000, "b");
            ActiveCaption([one, two], 2.0) == Some(one)
  {
    var one := Caption(1, "00:00:00,000", "00:00:02,000", 0, 2000, "a");
    var two := Caption(2, "00:00:02,000", "00:00:04,000", 2000, 4000, "b");
    SharedBoundary(one, two);
  }

  /** The new caption produced by the edit of `c`. */
  function EditOne(c: Caption, id: int, s: string): (r: Caption)
    ensures r.id == c.id && r.startTime == c.startTime && r.endTime == c.endTime
    ensures r.startMs == c.startMs && r.endMs == c.endMs
    ensures r.text == if c.id == id then s else c.text
  {
    if c.id == id then c.(text := s) else c
  }

  /** `prev.map(c => c.id === id ? { ...c, text: s } : c)`: every caption
      whose id is `id` gets the text `s`; nothing else changes. */
  function EditText(cs: seq<Caption>, id: int, s: string): (r: seq<Caption>)
    ensures |r| == |cs|
    ensures forall i :: 0 <= i < |cs| && cs[i].id == id ==> r[i] == cs[i].(text := s)
    ensures forall i :: 0 <= i < |cs| && cs[i].id != id ==> r[i] == cs[i]
  {
    if cs == [] then []
    else
      var rest := EditText(cs[1..], id, s);
      assert forall i :: 1 <= i < |cs| ==> cs[i] == cs[1..][i - 1];
      [EditOne(cs[0], id, s)] + rest
  }

  /** Apart from the text, every field of every caption is kept, so ids and
      times (and hence timing validity) survive an edit. */
  lemma EditKeepsTiming(cs: seq<Caption>, id: int, s: string)
    ensures forall i :: 0 <= i < |cs| ==>
      var r := EditText(cs, id, s)[i];
      r.id == cs[i].id && r.startTime == cs[i].startTime && r.endTime == cs[i].endTime
      && r.startMs == cs[i].startMs && r.endMs == cs[i].endMs
    ensures forall i :: 0 <= i < |cs| && Timed(cs[i]) ==> Timed(EditText(cs, id, s)[i])
  {
  }

  /** Typing into the field twice: the later text wins. */
  lemma {:induction false} EditLastWins(cs: seq<Caption>, id: int, s1: string, s2: string)
    ensures EditText(EditText(cs, id, s1), id, s2) == EditText(cs, id, s2)
  {
    if cs != [] {
      var e := EditText(cs, id, s1);
      assert e[1..] == EditText(cs[1..], id, s1);
      EditLastWins(cs[1..], id, s1, s2);
    }
  }

  /** Edits of two different ids touch disjoint captions and commute. */
  lemma {:induction false} EditCommute(cs: seq<Caption>, id1: int, s1: string, id2: int, s2: string)
    requires id1 != id2
    ensures EditText(EditText(cs, id1, s1), id2, s2) == EditText(EditText(cs, id2, s2), id1, s1)
  {
    if cs != [] {
      assert EditText(cs, id1, s1)[1..] == EditText(cs[1..], id1, s1);
      assert EditText(cs, id2, s2)[1..] == EditText(cs[1..], id2, s2);
      EditCommute(cs[1..], id1, s1, id2, s2);
    }
  }

  /** An edit never changes which caption is shown, only its text: the
      caption found after the edit is the edited version of the one found
      before. */
  lemma {:induction false} ActiveAfterEdit(cs: seq<Caption>, id: int, s: string, t: real)
    ensures ActiveCaption(EditText(cs, id, s), t) ==
      match ActiveCaption(cs, t)
      case None => None
      case Some(c) => Some(EditOne(c, id, s))
  {
    if cs != [] {
      var e := EditText(cs, id, s);
      assert e[1..] == EditText(cs[1..], id, s);
      assert Covers(e[0], t) == Covers(cs[0], t);
      ActiveAfterEdit(cs[1..], id, s, t);
    }
  }
}

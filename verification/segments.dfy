/** The segment post-processor inside `transcribe_to_srt`
    (transcribe/transcribe_japanese.py:71-93): drops short segments and
    adjacent repeats, strips the text, and numbers what is left from 1. */
module Segments {
  import opened Strings

  /** One recognised stretch of speech as the speech model reports it;
      times are seconds from the start of the audio. */
  datatype Segment = Segment(start: real, end: real, text: string)

  /** One subtitle: its 1-based number, its time range and its stripped text. */
  datatype Entry = Entry(index: nat, start: real, end: real, text: string)

  /** Line 72: `min_duration`. */
  const MinDuration: real := 0.5

  /** Line 80, first half: the segment is not skipped as too short. */
  predicate LongEnough(seg: Segment): (r: bool)
    ensures r <==> seg.start + MinDuration <= seg.end
    ensures r ==> seg.start < seg.end
  {
    !(seg.end - seg.start < MinDuration)
  }

  /** Line 80 as a whole: the segment is written when it is long enough and
      its stripped text differs from the last text that was written. */
  predicate Keeps(seg: Segment, lastText: string): (r: bool)
    ensures r ==> seg.start < seg.end
    ensures Strip(seg.text) == lastText ==> !r
  {
    LongEnough(seg) && Strip(seg.text) != lastText
  }

  /** Lines 82-83: a degenerate interval is stretched to half a second. */
  function ClampEnd(start: real, end: real): (r: real)
    ensures start < r
    ensures start < end ==> r == end
  {
    if end <= start then start + 0.5 else end
  }

  /** The clamp never fires on a segment that got past line 80: such a
      segment already lasts at least half a second, so its end is kept. */
  lemma ClampNeverFires(seg: Segment, lastText: string)
    requires Keeps(seg, lastText)
    ensures ClampEnd(seg.start, seg.end) == seg.end
    ensures seg.start < seg.end
  {
  }

  /** The two variables the loop of lines 75-93 carries from one segment
      to the next: `segment_index` and `last_text`. */
  datatype LoopState = LoopState(segmentIndex: nat, lastText: string)

  /** Lines 71 and 73: numbering starts at 1 and no text has been kept. */
  const Start: LoopState := LoopState(1, "")

  /** Lines 76-87: the subtitle written for one segment, if any. When it is
      written it carries the current number, the segment's own start and
      end (the clamp of lines 82-83 changes nothing) and the stripped text. */
  function Emit(seg: Segment, st: LoopState): (es: seq<Entry>)
    ensures |es| <= 1
    ensures |es| == 1 <==> Keeps(seg, st.lastText)
    ensures |es| == 1 ==> es[0] == Entry(st.segmentIndex, seg.start, seg.end, Strip(seg.text))
  {
    var text := Strip(seg.text);
    if seg.end - seg.start < MinDuration || text == st.lastText then []
    else
      ClampNeverFires(seg, st.lastText);
      [Entry(st.segmentIndex, seg.start, ClampEnd(seg.start, seg.end), text)]
  }

  /** Lines 92-93: after a subtitle is written its text becomes
      `last_text` and the number goes up by one; a skipped segment
      (`continue` at line 81) leaves both alone. */
  function Advance(seg: Segment, st: LoopState): (st': LoopState)
    ensures Keeps(seg, st.lastText) ==> st' == LoopState(st.segmentIndex + 1, Strip(seg.text))
    ensures !Keeps(seg, st.lastText) ==> st' == st
    ensures st'.segmentIndex == st.segmentIndex + |Emit(seg, st)|
  {
    var text := Strip(seg.text);
    if seg.end - seg.start < MinDuration || text == st.lastText then st
    else LoopState(st.segmentIndex + 1, text)
  }

  /** The subtitles the loop writes for `segs` when it starts in state `st`. */
  function Run(segs: seq<Segment>, st: LoopState): (es: seq<Entry>)
    ensures |es| <= |segs|
  {
    if |segs| == 0 then []
    else Emit(segs[0], st) + Run(segs[1..], Advance(segs[0], st))
  }

  /** The loop state after `segs` have been processed from state `st`. */
  function After(segs: seq<Segment>, st: LoopState): (st': LoopState)
    ensures st.segmentIndex <= st'.segmentIndex <= st.segmentIndex + |segs|
  {
    if |segs| == 0 then st else After(segs[1..], Advance(segs[0], st))
  }

  /** Lines 71-93: the subtitles written for the model's segments. */
  function PostProcess(segs: seq<Segment>): (es: seq<Entry>)
    ensures |es| <= |segs|
    ensures forall k :: 0 <= k < |es| ==> es[k].index == k + 1
    ensures forall k :: 0 <= k < |es| ==> es[k].end - es[k].start >= MinDuration
    ensures forall k :: 0 < k < |es| ==> es[k].text != es[k - 1].text
    ensures |es| > 0 ==> es[0].text != ""
  {
    RunWellFormed(segs, Start);
    Run(segs, Start)
  }

  /** The entries written from state `st` on are numbered consecutively
      from `st.segmentIndex`, each lasts at least `min_duration`, no two
      neighbours share their text, and the first differs from
      `st.lastText`. */
  ghost predicate WellFormedFrom(es: seq<Entry>, st: LoopState) {
    && (forall k :: 0 <= k < |es| ==> es[k].index == st.segmentIndex + k)
    && (forall k :: 0 <= k < |es| ==> es[k].end - es[k].start >= MinDuration)
    && (forall k :: 0 < k < |es| ==> es[k].text != es[k - 1].text)
    && (|es| > 0 ==> es[0].text != st.lastText)
  }

  lemma {:induction false} RunWellFormed(segs: seq<Segment>, st: LoopState)
    ensures WellFormedFrom(Run(segs, st), st)
  {
    if |segs| > 0 {
      var seg := segs[0];
      var st' := Advance(seg, st);
      RunWellFormed(segs[1..], st');
      var head, rest := Emit(seg, st), Run(segs[1..], st');
      if Keeps(seg, st.lastText) {
        var es := head + rest;
        assert forall k :: 0 < k < |es| ==> es[k] == rest[k - 1];
      } else {
        assert head + rest == rest;
      }
    }
  }

  /** `last_text` after the entries `es` were written on top of `last`. */
  function LastTextAfter(es: seq<Entry>, last: string): string {
    if |es| == 0 then last else es[|es| - 1].text
  }

  /** The state after a stretch of input records how many subtitles it
      wrote and the text of the last one: line 98's count
      `segment_index - 1` is the number of subtitles written. */
  lemma {:induction false} AfterCounts(segs: seq<Segment>, st: LoopState)
    ensures After(segs, st).segmentIndex == st.segmentIndex + |Run(segs, st)|
    ensures After(segs, st).lastText == LastTextAfter(Run(segs, st), st.lastText)
  {
    if |segs| > 0 {
      var seg := segs[0];
      var st' := Advance(seg, st);
      AfterCounts(segs[1..], st');
      var head, rest := Emit(seg, st), Run(segs[1..], st');
      if Keeps(seg, st.lastText) {
        assert LastTextAfter(head + rest, st.lastText) == LastTextAfter(rest, st'.lastText);
      } else {
        assert head + rest == rest;
      }
    }
  }

  /** Processing two stretches of input one after the other: the second
      stretch starts in the state the first left. */
  lemma {:induction false} RunAppend(a: seq<Segment>, b: seq<Segment>, st: LoopState)
    ensures Run(a + b, st) == Run(a, st) + Run(b, After(a, st))
    ensures After(a + b, st) == After(b, After(a, st))
  {
    if |a| == 0 {
      assert a + b == b;
    } else {
      var st' := Advance(a[0], st);
      assert (a + b)[0] == a[0];
      assert (a + b)[1..] == a[1..] + b;
      RunAppend(a[1..], b, st');
      AppendAssoc(Emit(a[0], st), Run(a[1..], st'), Run(b, After(a[1..], st')));
    }
  }

  /** The loop's bookkeeping across one segment: what has been written
      plus what remains still makes up the whole output. */
  lemma RunStep(segs: seq<Segment>, i: nat, done: seq<Entry>, st: LoopState)
    requires i < |segs|
    requires done + Run(segs[i..], st) == PostProcess(segs)
    ensures (done + Emit(segs[i], st)) + Run(segs[i + 1..], Advance(segs[i], st)) == PostProcess(segs)
  {
    assert segs[i..][1..] == segs[i + 1..];
    AppendAssoc(done, Emit(segs[i], st), Run(segs[i + 1..], Advance(segs[i], st)));
  }

  /** One more segment at the end of the input adds at most one subtitle
      and changes none of the earlier ones: a subtitle numbered one past
      the last, carrying the segment's own times and stripped text, exactly
      when the segment is long enough and its stripped text differs from
      the last subtitle's text ("" when there is none yet). */
  lemma PostProcessSnoc(segs: seq<Segment>, seg: Segment)
    ensures var p := PostProcess(segs);
            PostProcess(segs + [seg])
            == p + (if Keeps(seg, LastTextAfter(p, ""))
                    then [Entry(|p| + 1, seg.start, seg.end, Strip(seg.text))]
                    else [])
  {
    RunAppend(segs, [seg], Start);
    AfterCounts(segs, Start);
    var st := After(segs, Start);
    assert [seg][1..] == [];
    assert Run([seg], st) == Emit(seg, st) + Run([], Advance(seg, st));
  }

  /** The subtitles of a prefix of the input are a prefix of the subtitles
      of the whole input. */
  lemma PostProcessPrefix(segs: seq<Segment>, i: nat)
    requires i <= |segs|
    ensures PostProcess(segs[..i]) <= PostProcess(segs)
  {
    RunAppend(segs[..i], segs[i..], Start);
    assert segs[..i] + segs[i..] == segs;
  }

  /** Segment `i` gives a subtitle exactly when it is long enough and its
      stripped text differs from the last subtitle written before it. */
  lemma KeptIff(segs: seq<Segment>, i: nat)
    requires i < |segs|
    ensures var before := PostProcess(segs[..i]);
            |PostProcess(segs[..i + 1])| == |before| + 1
            <==> Keeps(segs[i], LastTextAfter(before, ""))
  {
    assert segs[..i + 1] == segs[..i] + [segs[i]];
    PostProcessSnoc(segs[..i], segs[i]);
  }

  /** While nothing has been written, a segment whose text strips to the
      empty string is dropped, because `last_text` starts as "". */
  lemma EmptyTextDroppedFirst(segs: seq<Segment>, seg: Segment)
    requires PostProcess(segs) == []
    requires Strip(seg.text) == ""
    ensures PostProcess(segs + [seg]) == []
  {
    PostProcessSnoc(segs, seg);
  }

  /** A segment whose end is not after its start never yields a subtitle:
      line 80 drops it before the clamp of lines 82-83 could stretch it. */
  lemma DegenerateDropped(segs: seq<Segment>, seg: Segment)
    requires seg.end <= seg.start
    ensures PostProcess(segs + [seg]) == PostProcess(segs)
  {
    PostProcessSnoc(segs, seg);
    assert PostProcess(segs) + [] == PostProcess(segs);
  }

  /** Only the last written text counts as a repeat (line 92 updates
      `last_text` only for written subtitles): in "A, B, A" with all three
      long enough and A, B different and not blank, the second A is
      written too. */
  lemma NonAdjacentRepeatKept(a: Segment, b: Segment, c: Segment)
    requires LongEnough(a) && LongEnough(b) && LongEnough(c)
    requires Strip(a.text) != "" && Strip(b.text) != Strip(a.text)
    requires Strip(c.text) == Strip(a.text)
    ensures |PostProcess([a, b, c])| == 3
    ensures PostProcess([a, b, c])[2].text == PostProcess([a, b, c])[0].text
  {
    assert PostProcess([]) == [];
    PostProcessSnoc([], a);
    assert [] + [a] == [a];
    PostProcessSnoc([a], b);
    assert [a] + [b] == [a, b];
    PostProcessSnoc([a, b], c);
    assert [a, b] + [c] == [a, b, c];
  }

  /** `pos` lists, in increasing order, input positions whose segments
      become the subtitles `es`: same times, stripped text. */
  ghost predicate Selects(segs: seq<Segment>, es: seq<Entry>, pos: seq<nat>) {
    && |pos| == |es|
    && (forall k :: 0 <= k < |pos| ==> pos[k] < |segs|)
    && (forall k, l :: 0 <= k < l < |pos| ==> pos[k] < pos[l])
    && (forall k :: 0 <= k < |pos| ==>
          && es[k].start == segs[pos[k]].start
          && es[k].end == segs[pos[k]].end
          && es[k].text == Strip(segs[pos[k]].text))
  }

  /** The input positions whose segments are written, starting from
      state `st`. */
  ghost function KeptPositions(segs: seq<Segment>, st: LoopState): seq<nat>
  {
    if |segs| == 0 then []
    else
      var rest := KeptPositions(segs[1..], Advance(segs[0], st));
      var shifted := seq(|rest|, k requires 0 <= k < |rest| => rest[k] + 1);
      if Keeps(segs[0], st.lastText) then [0] + shifted else shifted
  }

  lemma {:induction false} SelectsFrom(segs: seq<Segment>, st: LoopState)
    ensures Selects(segs, Run(segs, st), KeptPositions(segs, st))
  {
    if |segs| > 0 {
      var seg := segs[0];
      var st' := Advance(seg, st);
      var tail := segs[1..];
      SelectsFrom(tail, st');
      var es' := Run(tail, st');
      var rest := KeptPositions(tail, st');
      var shifted := seq(|rest|, k requires 0 <= k < |rest| => rest[k] + 1);
      assert Selects(segs, es', shifted) by {
        forall k | 0 <= k < |shifted|
          ensures shifted[k] < |segs| && segs[shifted[k]] == tail[rest[k]]
        {
        }
      }
      if Keeps(seg, st.lastText) {
        var e := Entry(st.segmentIndex, seg.start, seg.end, Strip(seg.text));
        assert Run(segs, st) == [e] + es';
        SelectsCons(segs, e, es', shifted);
      } else {
        assert Run(segs, st) == es';
      }
    }
  }

  lemma SelectsCons(segs: seq<Segment>, e: Entry, es: seq<Entry>, pos: seq<nat>)
    requires |segs| > 0 && Selects(segs, es, pos)
    requires forall k :: 0 <= k < |pos| ==> pos[k] > 0
    requires e.start == segs[0].start && e.end == segs[0].end && e.text == Strip(segs[0].text)
    ensures Selects(segs, [e] + es, [0] + pos)
  {
    var es', pos' := [e] + es, [0] + pos;
    assert forall k :: 0 < k < |pos'| ==> pos'[k] == pos[k - 1];
    assert forall k :: 0 < k < |es'| ==> es'[k] == es[k - 1];
    assert forall k :: 0 <= k < |pos'| ==> pos'[k] < |segs|;
    assert forall k, l :: 0 <= k < l < |pos'| ==> pos'[k] < pos'[l] by {
      forall k, l | 0 <= k < l < |pos'| ensures pos'[k] < pos'[l] {
        if k > 0 {
          assert pos[k - 1] < pos[l - 1];
        }
      }
    }
  }

  /** Every subtitle comes from its own input segment, in input order, with
      that segment's start and end unchanged and its text stripped. */
  lemma PostProcessSelects(segs: seq<Segment>)
    ensures Selects(segs, PostProcess(segs), KeptPositions(segs, Start))
  {
    SelectsFrom(segs, Start);
  }
}

/** Writing the subtitle file and the optional plain-text transcript
    (transcribe/transcribe_japanese.py:67-103). The files' contents are
    strings built up in the order the program writes them, and the speech
    model's segments are the input. */
module Srt {
  import opened Wrappers
  import opened Strings
  import opened Decimal
  import opened Timestamp
  import opened Segments

  /** Line 86: `start --> end`. */
  function TimeRange(e: Entry): (r: string)
    ensures |r| >= 29
  {
    FormatTimestamp(e.start) + " --> " + FormatTimestamp(e.end)
  }

  /** One subtitle as the loop writes it: its number, its time range and
      its text, each already rendered. */
  datatype Cue = Cue(number: string, range: string, text: string)

  function CueOf(e: Entry): Cue {
    Cue(NatToString(e.index), TimeRange(e), e.text)
  }

  /** Lines 85-87: the three writes for one subtitle. */
  function Block(c: Cue): string {
    c.number + "\n" + c.range + "\n" + c.text + "\n\n"
  }

  /** The four lines of one subtitle block: number, time range, text and
      the blank line that separates it from the next block. */
  function BlockLines(c: Cue): seq<string> {
    [c.number, c.range, c.text, ""]
  }

  /** The rendered cues of a list of entries, in order. */
  function Cues(es: seq<Entry>): (cs: seq<Cue>)
    ensures |cs| == |es|
  {
    if |es| == 0 then [] else Cues(es[..|es| - 1]) + [CueOf(es[|es| - 1])]
  }

  lemma {:induction false} CuesAt(es: seq<Entry>, k: nat)
    requires k < |es|
    ensures Cues(es)[k] == CueOf(es[k])
  {
    if k < |es| - 1 {
      CuesAt(es[..|es| - 1], k);
    }
  }

  /** A file of subtitle blocks, one after the other. */
  function RenderCues(cs: seq<Cue>): string {
    if |cs| == 0 then "" else RenderCues(cs[..|cs| - 1]) + Block(cs[|cs| - 1])
  }

  /** The subtitle file for a list of entries: their blocks in order. */
  function RenderSrt(es: seq<Entry>): string {
    if |es| == 0 then "" else RenderSrt(es[..|es| - 1]) + Block(CueOf(es[|es| - 1]))
  }

  lemma {:induction false} RenderSrtCues(es: seq<Entry>)
    ensures RenderSrt(es) == RenderCues(Cues(es))
  {
    if |es| > 0 {
      var init := es[..|es| - 1];
      RenderSrtCues(init);
      assert Cues(es)[..|es| - 1] == Cues(init);
    }
  }

  /** Line 90: the transcript gets the bare text of each subtitle. */
  function RenderTxt(es: seq<Entry>): string {
    if |es| == 0 then "" else RenderTxt(es[..|es| - 1]) + es[|es| - 1].text + "\n"
  }

  /** The lines of a subtitle file, block after block. */
  function CueLines(cs: seq<Cue>): (ls: seq<string>)
    ensures |ls| == 4 * |cs|
  {
    if |cs| == 0 then [] else CueLines(cs[..|cs| - 1]) + BlockLines(cs[|cs| - 1])
  }

  /** The texts of the subtitles, in order. */
  function Texts(es: seq<Entry>): (ts: seq<string>)
    ensures |ts| == |es|
  {
    if |es| == 0 then [] else Texts(es[..|es| - 1]) + [es[|es| - 1].text]
  }

  lemma {:induction false} TextsAt(es: seq<Entry>, k: nat)
    requires k < |es|
    ensures Texts(es)[k] == es[k].text
  {
    if k < |es| - 1 {
      TextsAt(es[..|es| - 1], k);
    }
  }

  /** Each block is exactly its four lines, each ended by a line break. */
  lemma BlockIsFourLines(c: Cue)
    ensures Block(c) == Lines(BlockLines(c))
  {
    var ls := BlockLines(c);
    assert Lines(ls[3..]) == "" + "\n";
    assert Lines(ls[2..]) == c.text + "\n" + ("" + "\n");
    assert Lines(ls[1..]) == c.range + "\n" + Lines(ls[2..]);
  }

  /** A subtitle file is the line-break-terminated sequence of its lines. */
  lemma {:induction false} RenderCuesLines(cs: seq<Cue>)
    ensures RenderCues(cs) == Lines(CueLines(cs))
  {
    if |cs| > 0 {
      var init, last := cs[..|cs| - 1], cs[|cs| - 1];
      RenderCuesLines(init);
      BlockIsFourLines(last);
      LinesAppend(CueLines(init), BlockLines(last));
    }
  }

  /** The transcript is the line-break-terminated sequence of the texts. */
  lemma {:induction false} RenderTxtLines(es: seq<Entry>)
    ensures RenderTxt(es) == Lines(Texts(es))
  {
    if |es| > 0 {
      var init, last := es[..|es| - 1], es[|es| - 1];
      RenderTxtLines(init);
      LinesAppend(Texts(init), [last.text]);
      assert Lines([last.text]) == last.text + "\n" + "";
    }
  }

  /** Line `j` of block `k` is line `4k + j` of the file. */
  lemma {:induction false} CueLinesAt(cs: seq<Cue>, k: nat, j: nat)
    requires k < |cs| && j < 4
    ensures CueLines(cs)[4 * k + j] == BlockLines(cs[k])[j]
  {
    if k < |cs| - 1 {
      CueLinesAt(cs[..|cs| - 1], k, j);
    }
  }

  /** No line of the sequence contains a line break. */
  predicate NoBreaks(ls: seq<string>) {
    forall i :: 0 <= i < |ls| ==> '\n' !in ls[i]
  }

  lemma NoBreaksAppend(a: seq<string>, b: seq<string>)
    requires NoBreaks(a) && NoBreaks(b)
    ensures NoBreaks(a + b)
  {
    forall i | 0 <= i < |a + b| ensures '\n' !in (a + b)[i] {
      if i >= |a| {
        assert (a + b)[i] == b[i - |a|];
      }
    }
  }

  /** No part of the cue holds a line break. */
  predicate SingleLineCue(c: Cue) {
    '\n' !in c.number && '\n' !in c.range && '\n' !in c.text
  }

  lemma {:induction false} CueLinesSingle(cs: seq<Cue>)
    requires forall k :: 0 <= k < |cs| ==> SingleLineCue(cs[k])
    ensures NoBreaks(CueLines(cs))
  {
    if |cs| > 0 {
      var init, last := cs[..|cs| - 1], cs[|cs| - 1];
      assert forall k :: 0 <= k < |init| ==> init[k] == cs[k];
      CueLinesSingle(init);
      assert SingleLineCue(last);
      assert NoBreaks(BlockLines(last));
      NoBreaksAppend(CueLines(init), BlockLines(last));
    }
  }

  /** Numbers and time ranges never contain a line break, so an entry's cue
      is single-line exactly when its text is. */
  lemma CueOfSingleLine(e: Entry)
    ensures SingleLineCue(CueOf(e)) <==> '\n' !in e.text
  {
    NatToStringChars(e.index, '\n');
    TimestampChars(e.start, '\n');
    TimestampChars(e.end, '\n');
    RangeSingleLine(FormatTimestamp(e.start), FormatTimestamp(e.end));
  }

  lemma RangeSingleLine(a: string, b: string)
    requires '\n' !in a && '\n' !in b
    ensures '\n' !in a + " --> " + b
  {
    NotInConcat(a, " --> ", '\n');
    NotInConcat(a + " --> ", b, '\n');
  }

  /** No subtitle text contains a line break. */
  predicate SingleLineTexts(es: seq<Entry>) {
    forall k :: 0 <= k < |es| ==> '\n' !in es[k].text
  }

  /** When no text holds a line break, reading the subtitle file back line
      by line (`split("\n")`) gives four lines per subtitle — number, time
      range, text, blank — and the empty piece after the final line break. */
  lemma SrtReadsBack(es: seq<Entry>)
    requires SingleLineTexts(es)
    ensures SplitOn(RenderSrt(es), '\n') == CueLines(Cues(es)) + [""]
  {
    var cs := Cues(es);
    forall k | 0 <= k < |cs| ensures SingleLineCue(cs[k]) {
      CuesAt(es, k);
      CueOfSingleLine(es[k]);
    }
    CueLinesSingle(cs);
    RenderSrtCues(es);
    RenderCuesLines(cs);
    LinesSplit(CueLines(cs));
  }

  /** Likewise the transcript reads back as one line per subtitle, in order. */
  lemma TxtReadsBack(es: seq<Entry>)
    requires SingleLineTexts(es)
    ensures SplitOn(RenderTxt(es), '\n') == Texts(es) + [""]
  {
    RenderTxtLines(es);
    forall k | 0 <= k < |Texts(es)| ensures '\n' !in Texts(es)[k] {
      TextsAt(es, k);
    }
    LinesSplit(Texts(es));
  }

  /** Lines `4k` to `4k + 3` of `lines` are the block of `c`: its number,
      its time range, its text and a blank line. */
  predicate BlockAt(lines: seq<string>, k: nat, c: Cue) {
    && 4 * k + 3 < |lines|
    && lines[4 * k] == c.number
    && lines[4 * k + 1] == c.range
    && lines[4 * k + 2] == c.text
    && lines[4 * k + 3] == ""
  }

  /** Read line by line, block `k` of the subtitle file is the entry's
      number, time range and text, then a blank line. */
  lemma FileLayout(es: seq<Entry>, k: nat)
    requires SingleLineTexts(es) && k < |es|
    ensures var lines := SplitOn(RenderSrt(es), '\n');
            |lines| == 4 * |es| + 1 && BlockAt(lines, k, CueOf(es[k]))
  {
    SrtReadsBack(es);
    CuesAt(es, k);
    LayoutAt(Cues(es), k);
  }

  lemma LayoutAt(cs: seq<Cue>, k: nat)
    requires k < |cs|
    ensures BlockAt(CueLines(cs) + [""], k, cs[k])
  {
    CueLinesAt(cs, k, 0);
    CueLinesAt(cs, k, 1);
    CueLinesAt(cs, k, 2);
    CueLinesAt(cs, k, 3);
  }

  /** The subtitle file for a run of the post-processor: block `k` is
      numbered `k + 1` and shows the `k`-th subtitle's time range and
      text. */
  lemma SubtitleFileLayout(segs: seq<Segment>, k: nat)
    requires SingleLineTexts(PostProcess(segs))
    requires k < |PostProcess(segs)|
    ensures var es := PostProcess(segs);
            var lines := SplitOn(RenderSrt(es), '\n');
            && |lines| == 4 * |es| + 1
            && BlockAt(lines, k, Cue(NatToString(k + 1), TimeRange(es[k]), es[k].text))
  {
    var es := PostProcess(segs);
    assert es[k].index == k + 1;
    assert CueOf(es[k]) == Cue(NatToString(k + 1), TimeRange(es[k]), es[k].text);
    FileLayout(es, k);
  }

  /** Line 98's progress line: how many subtitles were written and the end
      time of the model's last segment. */
  datatype Summary = Summary(count: nat, lastEnd: real)

  /** Line 103: the program stops with "Failed to write output files". */
  datatype WriteError = WriteFailed

  /** Lines 76-93 for one segment: the `continue` of line 81, the clamp of
      lines 82-83, the three writes of lines 85-87, the transcript write of
      lines 89-90 and the update of lines 92-93. The subtitle file and the
      transcript grow by exactly what the post-processor emits for the
      segment, and the counter and `last_text` move on as it does. */
  method WriteSegment(seg: Segment, segmentIndex: nat, lastText: string, srt: string, txt: Option<string>)
    returns (srt': string, txt': Option<string>, segmentIndex': nat, lastText': string)
    ensures LoopState(segmentIndex', lastText') == Advance(seg, LoopState(segmentIndex, lastText))
    ensures srt' == srt + RenderSrt(Emit(seg, LoopState(segmentIndex, lastText)))
    ensures txt' == if txt.Some? then Some(txt.value + RenderTxt(Emit(seg, LoopState(segmentIndex, lastText)))) else None
  {
    srt', txt', segmentIndex', lastText' := srt, txt, segmentIndex, lastText;
    var start, end, text := seg.start, seg.end, Strip(seg.text);
    if end - start < MinDuration || text == lastText {
      assert Emit(seg, LoopState(segmentIndex, lastText)) == [];
      assert txt.Some? ==> txt.value + "" == txt.value;
      assert srt + "" == srt;
      return;
    }
    if end <= start {
      end := start + 0.5;
    }
    var number := NatToString(segmentIndex);
    var range := FormatTimestamp(start) + " --> " + FormatTimestamp(end);
    srt' := srt' + number + "\n";
    srt' := srt' + range + "\n";
    srt' := srt' + text + "\n\n";
    if txt.Some? {
      txt' := Some(txt.value + text + "\n");
    }
    lastText' := text;
    segmentIndex' := segmentIndex + 1;
    ghost var e := Entry(segmentIndex, start, end, text);
    assert Emit(seg, LoopState(segmentIndex, lastText)) == [e];
    WriteBlock(srt, Cue(number, range, text));
    RenderOne(e);
    if txt.Some? {
      AppendAssoc(txt.value, text, "\n");
    }
  }

  /** The files for a single subtitle. */
  lemma RenderOne(e: Entry)
    ensures RenderSrt([e]) == Block(CueOf(e))
    ensures RenderTxt([e]) == e.text + "\n"
  {
    assert [e][..0] == [];
    assert RenderSrt([e]) == "" + Block(CueOf(e));
    assert RenderTxt([e]) == "" + e.text + "\n";
  }

  /** The three writes of one subtitle append its block. */
  lemma WriteBlock(s: string, c: Cue)
    ensures s + c.number + "\n" + c.range + "\n" + c.text + "\n\n" == s + Block(c)
  {
  }

  /** Lines 69-98 as the loop is written, given the model's segments and
      whether a transcript was asked for. Returns the subtitle file, the
      transcript (None when not requested), and the summary — or the error
      exit that line 98 causes when the model returned no segments, after
      both files were written. */
  method WriteSubtitles(segs: seq<Segment>, wantTxt: bool)
    returns (srt: string, txt: Option<string>, report: Result<Summary, WriteError>)
    ensures srt == RenderSrt(PostProcess(segs))
    ensures txt == if wantTxt then Some(RenderTxt(PostProcess(segs))) else None
    ensures report.Failure? <==> |segs| == 0
    ensures report.Success? ==> report.value.count == |PostProcess(segs)|
    ensures report.Success? ==> report.value.lastEnd == segs[|segs| - 1].end
  {
    srt := "";
    txt := if wantTxt then Some("") else None;
    var segmentIndex: nat := 1;
    var lastText := "";
    ghost var done: seq<Entry> := [];
    var i := 0;
    while i < |segs|
      invariant i <= |segs|
      invariant done + Run(segs[i..], LoopState(segmentIndex, lastText)) == PostProcess(segs)
      invariant segmentIndex == |done| + 1
      invariant srt == RenderSrt(done)
      invariant txt == if wantTxt then Some(RenderTxt(done)) else None
    {
      ghost var st := LoopState(segmentIndex, lastText);
      ghost var es := Emit(segs[i], st);
      srt, txt, segmentIndex, lastText := WriteSegment(segs[i], segmentIndex, lastText, srt, txt);
      ghost var next := LoopState(segmentIndex, lastText);
      assert next == Advance(segs[i], st);
      assert segmentIndex == st.segmentIndex + |es|;
      RunStep(segs, i, done, st);
      RenderSrtAppend(done, es);
      RenderTxtAppend(done, es);
      done := done + es;
      i := i + 1;
      assert done + Run(segs[i..], next) == PostProcess(segs);
    }
    assert done == PostProcess(segs) by {
      assert segs[i..] == [];
      assert done + [] == done;
    }
    if |segs| == 0 {
      report := Failure(WriteFailed);
    } else {
      report := Success(Summary(segmentIndex - 1, segs[|segs| - 1].end));
    }
  }

  /** Writing the subtitles of two runs one after the other gives the file
      of the combined run. */
  lemma {:induction false} RenderSrtAppend(a: seq<Entry>, b: seq<Entry>)
    ensures RenderSrt(a + b) == RenderSrt(a) + RenderSrt(b)
  {
    if |b| == 0 {
      assert a + b == a;
    } else {
      var init, last := b[..|b| - 1], b[|b| - 1];
      assert (a + b)[..|a + b| - 1] == a + init;
      assert (a + b)[|a + b| - 1] == last;
      RenderSrtAppend(a, init);
      AppendAssoc(RenderSrt(a), RenderSrt(init), Block(CueOf(last)));
    }
  }

  /** Likewise for the transcript. */
  lemma {:induction false} RenderTxtAppend(a: seq<Entry>, b: seq<Entry>)
    ensures RenderTxt(a + b) == RenderTxt(a) + RenderTxt(b)
  {
    if |b| == 0 {
      assert a + b == a;
    } else {
      var init, last := b[..|b| - 1], b[|b| - 1];
      assert (a + b)[..|a + b| - 1] == a + init;
      assert (a + b)[|a + b| - 1] == last;
      RenderTxtAppend(a, init);
      AppendAssoc(RenderTxt(a), RenderTxt(init), last.text + "\n");
    }
  }
}

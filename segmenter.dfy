/** The first pass of the transcript extractor: caption bodies are flattened to
    one line each, music and laughter captions are dropped, and the remaining
    lines are merged left to right into segments. */
module Segmenter {
  import opened Text

  /** Markers whose presence anywhere in a line marks it as a sound effect. */
  const NoiseMarkers: seq<string> := ["[MUSIC", "[LAUGHS]", "[MUSIC]", "[MUSIC PLAYING]"]

  /** A line starting with this opens a new speaker's turn. */
  const SpeakerPrefix: string := "- "

  /** A line longer than this is taken as a pause and opens a new segment. */
  const LongLine: nat := 50

  /** `body.strip().replace('\n', ' ')`: one caption body on one line. */
  function FlattenLine(body: string): (line: string)
    ensures '\n' !in line && Trimmed(line)
    ensures |line| == |Strip(body)|
    ensures forall i :: 0 <= i < |line| && Strip(body)[i] != '\n' ==> line[i] == Strip(body)[i]
    ensures forall i :: 0 <= i < |line| && Strip(body)[i] == '\n' ==> line[i] == ' '
  {
    var s := Strip(body);
    var line := NewlinesToSpaces(s);
    SameEnds(s, line);
    line
  }

  lemma SameEnds(s: string, t: string)
    requires Trimmed(s) && |s| == |t| && (s != [] ==> t[0] == s[0] && t[|s| - 1] == s[|s| - 1])
    ensures Trimmed(t)
  {
  }

  /** Every newline of `s` replaced by a space. */
  function NewlinesToSpaces(s: string): (line: string)
    ensures |line| == |s| && '\n' !in line
    ensures forall i :: 0 <= i < |s| ==> line[i] == (if s[i] == '\n' then ' ' else s[i])
  {
    seq(|s|, i requires 0 <= i < |s| => if s[i] == '\n' then ' ' else s[i])
  }

  /** The flattening comprehension over all captured bodies. */
  function FlattenLines(bodies: seq<string>): (lines: seq<string>)
    ensures |lines| == |bodies|
    ensures forall k :: 0 <= k < |bodies| ==> lines[k] == FlattenLine(bodies[k])
    ensures forall k :: 0 <= k < |lines| ==> '\n' !in lines[k] && Trimmed(lines[k])
  {
    seq(|bodies|, k requires 0 <= k < |bodies| => FlattenLine(bodies[k]))
  }

  predicate IsNoise(line: string) {
    exists marker :: marker in NoiseMarkers && Contains(line, marker)
  }

  /** Two of the four markers are redundant: `[MUSIC]` and `[MUSIC PLAYING]`
      both contain `[MUSIC`. */
  lemma NoiseMarkersReduce(line: string)
    ensures IsNoise(line) <==> Contains(line, "[MUSIC") || Contains(line, "[LAUGHS]")
  {
    if Contains(line, "[MUSIC]") {
      assert "[MUSIC" + "]" == "[MUSIC]";
      ContainsPrefixOf(line, "[MUSIC", "]");
    }
    if Contains(line, "[MUSIC PLAYING]") {
      assert "[MUSIC" + " PLAYING]" == "[MUSIC PLAYING]";
      ContainsPrefixOf(line, "[MUSIC", " PLAYING]");
    }
    if Contains(line, "[MUSIC") {
      assert NoiseMarkers[0] in NoiseMarkers;
    }
    if Contains(line, "[LAUGHS]") {
      assert NoiseMarkers[1] in NoiseMarkers;
    }
  }

  /** The lines for which `drop` does not hold, in input order. */
  function Remove(lines: seq<string>, drop: string -> bool): (kept: seq<string>)
    ensures |kept| <= |lines|
    ensures forall k :: 0 <= k < |kept| ==> !drop(kept[k])
    decreases |lines|
  {
    if lines == [] then []
    else
      var n := |lines| - 1;
      if drop(lines[n]) then Remove(lines[..n], drop) else Remove(lines[..n], drop) + [lines[n]]
  }

  /** When every line is dropped, nothing is kept. */
  lemma {:induction false} RemoveAll(lines: seq<string>, drop: string -> bool)
    requires forall k :: 0 <= k < |lines| ==> drop(lines[k])
    ensures Remove(lines, drop) == []
    decreases |lines|
  {
    if lines != [] {
      RemoveAll(lines[..|lines| - 1], drop);
    }
  }

  /** Filtering keeps the input order: the kept lines of a concatenation are the
      kept lines of its first half followed by those of its second half. */
  lemma {:induction false} RemoveAppend(xs: seq<string>, ys: seq<string>, drop: string -> bool)
    ensures Remove(xs + ys, drop) == Remove(xs, drop) + Remove(ys, drop)
    decreases |ys|
  {
    if ys == [] {
      assert xs + ys == xs;
    } else {
      var n := |ys| - 1;
      RemoveAppend(xs, ys[..n], drop);
      assert (xs + ys)[..|xs + ys| - 1] == xs + ys[..n];
      assert (xs + ys)[|xs + ys| - 1] == ys[n];
    }
  }

  /** A single line is kept exactly when it is not dropped. */
  lemma RemoveOne(line: string, drop: string -> bool)
    ensures Remove([line], drop) == if drop(line) then [] else [line]
  {
    assert [line][..0] == [];
  }

  /** The lines that survive the sound-effect filter. */
  function Kept(lines: seq<string>): seq<string> {
    Remove(lines, IsNoise)
  }

  /** Every line that is not dropped is kept exactly as often as it occurs. */
  lemma {:induction false} RemoveCount(lines: seq<string>, drop: string -> bool, x: string)
    ensures multiset(Remove(lines, drop))[x] == if drop(x) then 0 else multiset(lines)[x]
    decreases |lines|
  {
    if lines != [] {
      var n := |lines| - 1;
      RemoveCount(lines[..n], drop, x);
      assert lines == lines[..n] + [lines[n]];
    }
  }

  /** Sound-effect lines vanish; every other line is kept as often as it occurs. */
  lemma KeptCount(lines: seq<string>, x: string)
    ensures multiset(Kept(lines))[x] == if IsNoise(x) then 0 else multiset(lines)[x]
  {
    RemoveCount(lines, IsNoise, x);
  }

  /** `prev.rstrip()` ends in a sentence-ending punctuation mark. */
  predicate EndsSentence(prev: string) {
    var r := RStrip(prev);
    r != [] && r[|r| - 1] in ".?!"
  }

  /** The three triggers that close the open segment before `line`. */
  predicate Boundary(prev: string, line: string) {
    SpeakerPrefix <= line || EndsSentence(prev) || |line| > LongLine
  }

  /** Groups `k - 1` and `k` meet where `cut` fires. */
  predicate MeetAt(gs: seq<seq<string>>, k: nat, cut: (string, string) -> bool)
    requires 0 < k < |gs|
  {
    gs[k - 1] != [] && gs[k] != [] && cut(Last(gs[k - 1]), gs[k][0])
  }

  /** `cut` fires between lines `j - 1` and `j` of the group `g`. */
  predicate CutAt(g: seq<string>, j: nat, cut: (string, string) -> bool)
    requires 0 < j < |g|
  {
    cut(g[j - 1], g[j])
  }

  /** The groups are non-empty, consecutive groups meet where `cut` fires, and
      `cut` fires between no two neighbouring lines inside a group. */
  predicate Segmented(gs: seq<seq<string>>, cut: (string, string) -> bool) {
    (forall k :: 0 <= k < |gs| ==> gs[k] != [])
    && (forall k :: 0 < k < |gs| ==> MeetAt(gs, k, cut))
    && (forall k, j :: 0 <= k < |gs| && 0 < j < |gs[k]| ==> !CutAt(gs[k], j, cut))
  }

  /** The line groups a left-to-right merge produces from `xs`: each line
      opens a new group when `cut` fires between it and the line before it,
      and joins the open group otherwise. No line is lost, repeated or moved. */
  function Segment(xs: seq<string>, cut: (string, string) -> bool): (gs: seq<seq<string>>)
    ensures Concat(gs) == xs
    ensures forall k :: 0 <= k < |gs| ==> gs[k] != []
    ensures gs == [] <==> xs == []
    decreases |xs|
  {
    if xs == [] then []
    else
      var n := |xs| - 1;
      var gs := Segment(xs[..n], cut);
      var line := xs[n];
      if gs == [] then
        assert xs == [line];
        [[line]]
      else if cut(Last(Last(gs)), line) then
        ConcatAppend(gs, [line]);
        gs + [[line]]
      else
        ConcatExtendLast(gs, line);
        gs[..|gs| - 1] + [Last(gs) + [line]]
  }

  /** The merge cuts exactly where `cut` fires. */
  lemma {:induction false} SegmentSegmented(xs: seq<string>, cut: (string, string) -> bool)
    ensures Segmented(Segment(xs, cut), cut)
    decreases |xs|
  {
    if xs != [] {
      var n := |xs| - 1;
      SegmentSegmented(xs[..n], cut);
      var gs := Segment(xs[..n], cut);
      if gs != [] {
        if cut(Last(Last(gs)), xs[n]) {
          OpenNewGroup(gs, xs[n], cut);
        } else {
          ExtendLastGroup(gs, xs[n], cut);
        }
      }
    }
  }

  lemma OpenNewGroup(gs: seq<seq<string>>, line: string, cut: (string, string) -> bool)
    requires Segmented(gs, cut) && gs != [] && cut(Last(Last(gs)), line)
    ensures Segmented(gs + [[line]], cut)
  {
    var hs := gs + [[line]];
    forall k | 0 < k < |hs| ensures MeetAt(hs, k, cut) {
      if k < |gs| {
        assert MeetAt(gs, k, cut);
      }
    }
    forall k, j | 0 <= k < |hs| && 0 < j < |hs[k]| ensures !CutAt(hs[k], j, cut) {
      assert hs[k] == gs[k];
    }
  }

  lemma ExtendLastGroup(gs: seq<seq<string>>, line: string, cut: (string, string) -> bool)
    requires Segmented(gs, cut) && gs != [] && !cut(Last(Last(gs)), line)
    ensures Segmented(gs[..|gs| - 1] + [Last(gs) + [line]], cut)
  {
    var hs := gs[..|gs| - 1] + [Last(gs) + [line]];
    forall k, j | 0 <= k < |hs| && 0 < j < |hs[k]| ensures !CutAt(hs[k], j, cut) {
      if k < |gs| - 1 {
        assert hs[k] == gs[k];
      } else if j < |Last(gs)| {
        assert hs[k][j - 1] == gs[k][j - 1] && hs[k][j] == gs[k][j];
        assert !CutAt(gs[k], j, cut);
      }
    }
    forall k | 0 < k < |hs| ensures MeetAt(hs, k, cut) {
      assert MeetAt(gs, k, cut);
      assert hs[k - 1] == gs[k - 1];
      assert hs[k][0] == gs[k][0];
    }
  }

  /** Dropping the last group keeps a segmentation. */
  lemma DropLastGroup(gs: seq<seq<string>>, cut: (string, string) -> bool)
    requires Segmented(gs, cut) && gs != []
    ensures Segmented(gs[..|gs| - 1], cut)
    ensures |gs| > 1 ==> cut(Last(Last(gs[..|gs| - 1])), Last(gs)[0])
  {
    var init := gs[..|gs| - 1];
    forall k | 0 < k < |init| ensures MeetAt(init, k, cut) {
      assert MeetAt(gs, k, cut);
    }
    forall k, j | 0 <= k < |init| && 0 < j < |init[k]| ensures !CutAt(init[k], j, cut) {
      assert init[k] == gs[k];
    }
    if |gs| > 1 {
      assert MeetAt(gs, |gs| - 1, cut);
    }
  }

  /** Dropping the last line of a last group of two or more lines keeps a segmentation. */
  lemma DropLastLine(gs: seq<seq<string>>, cut: (string, string) -> bool)
    requires Segmented(gs, cut) && gs != [] && |Last(gs)| > 1
    ensures var g := Last(gs);
      Segmented(gs[..|gs| - 1] + [g[..|g| - 1]], cut) && !cut(g[|g| - 2], g[|g| - 1])
  {
    var g := Last(gs);
    var shorter := gs[..|gs| - 1] + [g[..|g| - 1]];
    forall k | 0 < k < |shorter| ensures MeetAt(shorter, k, cut) {
      assert MeetAt(gs, k, cut);
      assert shorter[k - 1] == gs[k - 1];
      assert shorter[k][0] == gs[k][0];
    }
    forall k, j | 0 <= k < |shorter| && 0 < j < |shorter[k]| ensures !CutAt(shorter[k], j, cut) {
      if k == |gs| - 1 {
        assert shorter[k][j - 1] == g[j - 1] && shorter[k][j] == g[j];
        assert !CutAt(g, j, cut);
      } else {
        assert shorter[k] == gs[k];
      }
    }
    assert !CutAt(g, |g| - 1, cut);
  }

  /** The merge is the only way to cut `xs` into groups with boundaries
      exactly where `cut` fires. */
  lemma {:induction false} SegmentUnique(xs: seq<string>, gs: seq<seq<string>>, cut: (string, string) -> bool)
    requires Segmented(gs, cut) && Concat(gs) == xs
    ensures gs == Segment(xs, cut)
    decreases |xs|, 1
  {
    if gs != [] {
      assert Last(gs) != [];
      if |Last(gs)| == 1 {
        UniqueWithSingleLast(xs, gs, cut);
      } else {
        UniqueWithLongerLast(xs, gs, cut);
      }
    }
  }

  lemma {:induction false} UniqueWithSingleLast(xs: seq<string>, gs: seq<seq<string>>, cut: (string, string) -> bool)
    requires Segmented(gs, cut) && Concat(gs) == xs && gs != [] && |Last(gs)| == 1
    ensures gs == Segment(xs, cut)
    decreases |xs|, 0
  {
    ConcatDropSingleton(gs, xs);
    var n := |xs| - 1;
    DropLastGroup(gs, cut);
    SegmentUnique(xs[..n], gs[..|gs| - 1], cut);
  }

  lemma {:induction false} UniqueWithLongerLast(xs: seq<string>, gs: seq<seq<string>>, cut: (string, string) -> bool)
    requires Segmented(gs, cut) && Concat(gs) == xs && gs != [] && |Last(gs)| > 1
    ensures gs == Segment(xs, cut)
    decreases |xs|, 0
  {
    var g := Last(gs);
    var shorter := gs[..|gs| - 1] + [g[..|g| - 1]];
    ConcatDropLastElement(gs, xs);
    var n := |xs| - 1;
    DropLastLine(gs, cut);
    SegmentUnique(xs[..n], shorter, cut);
  }

  /** The segments produced from the flattened lines: each group of lines
      joined with single spaces. */
  function Segments(lines: seq<string>): seq<string> {
    JoinEach(Segment(Kept(lines), Boundary), " ")
  }

  /** The segmenting loop: sound-effect lines are skipped; every other line
      either closes the open segment and opens a new one, or is appended to it. */
  method SegmentLines(lines: seq<string>) returns (segments: seq<string>)
    ensures segments == Segments(lines)
  {
    segments := SegmentPrefix(lines, |lines|);
    WholeSlice(lines);
  }

  /** The segmenting loop run over the first `n` lines. */
  method SegmentPrefix(lines: seq<string>, n: nat) returns (segments: seq<string>)
    requires n <= |lines|
    ensures segments == Segments(lines[..n])
  {
    segments := [];
    var current: seq<string> := [];
    for i := 0 to n
      invariant segments == Emitted(lines[..i]) && current == Held(lines[..i])
    {
      var line := lines[i];
      LineStep(lines, i);
      if IsNoise(line) {
        continue;
      }
      segments, current := TakeLine(segments, current, line);
    }
    FinalFlush(lines[..n]);
    if current != [] {
      segments := segments + [Join(current, " ")];
    }
  }

  /** The body of the loop for a line that is not a sound effect: a new
      speaker, a sentence end on the previous line or a long line closes the
      open segment, which is emitted; otherwise the line joins it. */
  method TakeLine(segments: seq<string>, current: seq<string>, line: string)
    returns (segments': seq<string>, current': seq<string>)
    ensures if current != [] && Boundary(Last(current), line)
      then segments' == segments + [Join(current, " ")] && current' == [line]
      else segments' == segments && current' == current + [line]
  {
    var newSpeaker := SpeakerPrefix <= line;
    if (newSpeaker || (current != [] && EndsSentence(current[|current| - 1])) || |line| > LongLine) && current != [] {
      segments', current' := segments + [Join(current, " ")], [line];
    } else {
      segments', current' := segments, current + [line];
    }
  }

  /** The segments the loop has emitted after reading `lines`. */
  function Emitted(lines: seq<string>): seq<string> {
    JoinEach(Done(Segment(Kept(lines), Boundary)), " ")
  }

  /** The lines of the segment the loop holds open after reading `lines`. */
  function Held(lines: seq<string>): seq<string> {
    Pending(Segment(Kept(lines), Boundary))
  }

  /** One loop iteration: a sound-effect line changes nothing; any other line
      either closes and emits the open segment and opens its own, or joins it. */
  lemma LineStep(lines: seq<string>, i: nat)
    requires i < |lines|
    ensures var line, cur := lines[i], Held(lines[..i]);
      if IsNoise(line) then
        Emitted(lines[..i + 1]) == Emitted(lines[..i]) && Held(lines[..i + 1]) == cur
      else if cur != [] && Boundary(Last(cur), line) then
        Emitted(lines[..i + 1]) == Emitted(lines[..i]) + [Join(cur, " ")] && Held(lines[..i + 1]) == [line]
      else
        Emitted(lines[..i + 1]) == Emitted(lines[..i]) && Held(lines[..i + 1]) == cur + [line]
  {
    KeptStep(lines, i);
    if !IsNoise(lines[i]) {
      PendingStep(Kept(lines[..i]), lines[i], Boundary);
    }
  }

  /** After the loop, emitting the open segment completes the segments. */
  lemma FinalFlush(lines: seq<string>)
    ensures Segments(lines) == Emitted(lines) + (if Held(lines) == [] then [] else [Join(Held(lines), " ")])
  {
    PendingFlush(Segment(Kept(lines), Boundary));
  }

  /** The groups the loop has already emitted as segments. */
  function Done(gs: seq<seq<string>>): seq<seq<string>> {
    if gs == [] then [] else gs[..|gs| - 1]
  }

  /** The group the loop still holds open. */
  function Pending(gs: seq<seq<string>>): seq<string> {
    if gs == [] then [] else Last(gs)
  }

  /** One more kept line either closes the open group, emitting it, and opens
      a group of its own, or is appended to the open group. */
  lemma PendingStep(xs: seq<string>, line: string, cut: (string, string) -> bool)
    ensures var gs := Segment(xs, cut);
      var hs := Segment(xs + [line], cut);
      var cur := Pending(gs);
      if cur != [] && cut(Last(cur), line) then
        Pending(hs) == [line] && JoinEach(Done(hs), " ") == JoinEach(Done(gs), " ") + [Join(cur, " ")]
      else
        Pending(hs) == cur + [line] && Done(hs) == Done(gs)
  {
    SegmentStep(xs, line, cut);
    var gs := Segment(xs, cut);
    if gs != [] {
      if cut(Last(Last(gs)), line) {
        assert (gs + [[line]])[..|gs|] == gs;
        JoinEachSnoc(gs, " ");
      } else {
        assert (gs[..|gs| - 1] + [Last(gs) + [line]])[..|gs| - 1] == gs[..|gs| - 1];
      }
    }
  }

  /** Emitting the open group at the end gives every group. */
  lemma PendingFlush(gs: seq<seq<string>>)
    requires forall k :: 0 <= k < |gs| ==> gs[k] != []
    ensures JoinEach(gs, " ") == JoinEach(Done(gs), " ") + (if Pending(gs) == [] then [] else [Join(Pending(gs), " ")])
  {
    if gs != [] {
      JoinEachSnoc(gs, " ");
    }
  }

  lemma WholeSlice(lines: seq<string>)
    ensures Segments(lines[..|lines|]) == Segments(lines)
  {
    assert lines[..|lines|] == lines;
  }

  /** One more input line either leaves the kept lines alone or adds itself to them. */
  lemma KeptStep(lines: seq<string>, i: nat)
    requires i < |lines|
    ensures Kept(lines[..i + 1]) == if IsNoise(lines[i]) then Kept(lines[..i]) else Kept(lines[..i]) + [lines[i]]
  {
    RemoveStep(lines, i, IsNoise);
  }

  lemma RemoveStep(lines: seq<string>, i: nat, drop: string -> bool)
    requires i < |lines|
    ensures Remove(lines[..i + 1], drop) == if drop(lines[i]) then Remove(lines[..i], drop) else Remove(lines[..i], drop) + [lines[i]]
  {
    assert lines[..i + 1][..i] == lines[..i];
  }

  /** One more kept line opens a new group or extends the last one. */
  lemma SegmentStep(xs: seq<string>, line: string, cut: (string, string) -> bool)
    ensures var gs := Segment(xs, cut);
      Segment(xs + [line], cut) ==
        if gs == [] then [[line]]
        else if cut(Last(Last(gs)), line) then gs + [[line]]
        else gs[..|gs| - 1] + [Last(gs) + [line]]
  {
    assert (xs + [line])[..|xs|] == xs;
  }

  /** No kept line is dropped or repeated, and none is out of order: the
      segments' line lists concatenate to the filtered line list. */
  lemma SegmentsKeepLines(lines: seq<string>)
    ensures Concat(Segment(Kept(lines), Boundary)) == Kept(lines)
    ensures forall k :: 0 <= k < |Segment(Kept(lines), Boundary)| ==> Segment(Kept(lines), Boundary)[k] != []
    ensures Kept(lines) != [] ==> Segment(Kept(lines), Boundary)[0][0] == Kept(lines)[0]
  {
    var gs := Segment(Kept(lines), Boundary);
    if gs != [] {
      ConcatHead(gs);
    }
  }

  lemma {:induction false} ConcatHead(gs: seq<seq<string>>)
    requires gs != [] && gs[0] != []
    ensures Concat(gs) != [] && Concat(gs)[0] == gs[0][0]
    decreases |gs|
  {
    if |gs| > 1 {
      ConcatHead(gs[..|gs| - 1]);
    } else {
      assert gs[..0] == [];
    }
  }

  /** No segment text contains a sound-effect marker: neither marker holds a
      space, so none can arise across the joins. */
  lemma SegmentsNoiseFree(lines: seq<string>)
    ensures forall k :: 0 <= k < |Segments(lines)| ==>
      !Contains(Segments(lines)[k], "[MUSIC") && !Contains(Segments(lines)[k], "[LAUGHS]")
  {
    var gs := Segment(Kept(lines), Boundary);
    forall k | 0 <= k < |gs|
      ensures !Contains(Join(gs[k], " "), "[MUSIC") && !Contains(Join(gs[k], " "), "[LAUGHS]")
    {
      forall j | 0 <= j < |gs[k]|
        ensures !Contains(gs[k][j], "[MUSIC") && !Contains(gs[k][j], "[LAUGHS]")
      {
        InConcat(gs, k, j);
        var x := gs[k][j];
        var i :| 0 <= i < |Kept(lines)| && Kept(lines)[i] == x;
        NoiseMarkersReduce(x);
      }
      JoinAvoids(gs[k], " ", "[MUSIC");
      JoinAvoids(gs[k], " ", "[LAUGHS]");
    }
  }

  /** Two kept lines make two segments exactly when the second starts a new
      one, and a single space-joined segment otherwise. */
  lemma TwoLines(a: string, b: string)
    requires !IsNoise(a) && !IsNoise(b)
    ensures Segments([a, b]) == if Boundary(a, b) then [a, b] else [a + " " + b]
  {
    KeptTwo(a, b);
    SegmentTwo(a, b, Boundary);
    if Boundary(a, b) {
      assert JoinEach([[a], [b]], " ") == [a, b];
    } else {
      assert [a, b][1..] == [b];
      assert Join([a, b], " ") == a + " " + b;
      assert JoinEach([[a, b]], " ")[0] == a + " " + b;
    }
  }

  lemma KeptTwo(a: string, b: string)
    requires !IsNoise(a) && !IsNoise(b)
    ensures Kept([a, b]) == [a, b]
  {
    RemoveStep([a, b], 0, IsNoise);
    RemoveStep([a, b], 1, IsNoise);
    assert [a, b][..0] == [] && [a, b][..1] == [a] && [a, b][..2] == [a, b];
  }

  lemma SegmentTwo(a: string, b: string, cut: (string, string) -> bool)
    ensures Segment([a, b], cut) == if cut(a, b) then [[a], [b]] else [[a, b]]
  {
    SegmentStep([], a, cut);
    SegmentStep([a], b, cut);
    assert [] + [a] == [a] && [a] + [b] == [a, b];
  }

  /** A line without a '[' is never a sound-effect line. */
  lemma NoBracketNoNoise(line: string)
    requires '[' !in line
    ensures !IsNoise(line)
  {
    NotContainsFirstChar(line, "[MUSIC");
    NotContainsFirstChar(line, "[LAUGHS]");
    NoiseMarkersReduce(line);
  }

  /** A line ending a sentence closes its segment. */
  lemma SentenceEndExample()
    ensures Segments(["Hello there.", "welcome back"]) == ["Hello there.", "welcome back"]
  {
    NoBracketNoNoise("Hello there.");
    NoBracketNoNoise("welcome back");
    assert EndsSentence("Hello there.") by {
      assert RStrip("Hello there.") == "Hello there.";
    }
    TwoLines("Hello there.", "welcome back");
  }

  /** A line longer than fifty characters opens a segment of its own. */
  lemma LongLineExample(long: string)
    requires |long| > LongLine && '[' !in long
    ensures Segments(["and then", long]) == ["and then", long]
  {
    NoBracketNoNoise("and then");
    NoBracketNoNoise(long);
    TwoLines("and then", long);
  }

  /** A line of nothing but a sound effect leaves no segment at all. */
  lemma MusicOnlyExample()
    ensures Segments(["[MUSIC PLAYING]"]) == []
  {
    ContainsAt("[MUSIC PLAYING]", "[MUSIC", 0);
    NoiseMarkersReduce("[MUSIC PLAYING]");
    assert ["[MUSIC PLAYING]"][..0] == [];
    assert Kept(["[MUSIC PLAYING]"]) == [];
  }
}

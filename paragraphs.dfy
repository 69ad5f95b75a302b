/** The second pass of the transcript extractor: segments are grouped into
    paragraphs of at most twelve, a paragraph also ending at a segment that
    mentions a topic-change phrase, and the paragraphs are joined with blank
    lines. */
module ParagraphBuilder {
  import opened Text

  /** Phrases whose presence, ignoring case, marks a change of topic. */
  const TopicWords: seq<string> := ["welcome", "so tell us", "let's talk about", "moving on", "speaking of",
                                    "NASA", "physics", "data science", "decision science", "research", "industry"]

  /** A paragraph is closed once it holds this many segments. */
  const ParagraphCap: nat := 12

  /** Paragraphs are separated by a blank line. */
  const ParagraphSeparator: string := "\n\n"

  /** `any(word.lower() in segment.lower() for word in TopicWords)` */
  predicate IsTopic(segment: string) {
    exists word :: word in TopicWords && Contains(Lower(segment), Lower(word))
  }

  /** The open paragraph `g` is flushed: it reached the cap, or its newest
      segment changes the topic. */
  predicate Closes(g: seq<string>, topic: string -> bool) {
    |g| >= ParagraphCap || (g != [] && topic(Last(g)))
  }

  /** The paragraphs (as segment lists) that the left-to-right pass builds:
      each segment joins the open paragraph, or opens a new one when the
      previous paragraph was flushed. No segment is lost, repeated or moved. */
  function Chunk(segs: seq<string>, topic: string -> bool): (ps: seq<seq<string>>)
    ensures Concat(ps) == segs
    ensures forall k :: 0 <= k < |ps| ==> ps[k] != []
    ensures ps == [] <==> segs == []
    decreases |segs|
  {
    if segs == [] then []
    else
      var n := |segs| - 1;
      var ps := Chunk(segs[..n], topic);
      var s := segs[n];
      if ps == [] || Closes(Last(ps), topic) then
        ConcatAppend(ps, [s]);
        ps + [[s]]
      else
        ConcatExtendLast(ps, s);
        ps[..|ps| - 1] + [Last(ps) + [s]]
  }

  /** Paragraphs of one to twelve segments; all but the last were flushed; a
      topic segment is always the last of its paragraph. */
  predicate Paged(ps: seq<seq<string>>, topic: string -> bool) {
    (forall k :: 0 <= k < |ps| ==> 0 < |ps[k]| <= ParagraphCap)
    && (forall k :: 0 <= k < |ps| - 1 ==> ps[k] != [] && Closes(ps[k], topic))
    && (forall k, j :: 0 <= k < |ps| && 0 <= j < |ps[k]| - 1 ==> !topic(ps[k][j]))
  }

  /** The pass builds paragraphs with exactly the shape above. */
  lemma {:induction false} ChunkPaged(segs: seq<string>, topic: string -> bool)
    ensures Paged(Chunk(segs, topic), topic)
    decreases |segs|
  {
    if segs != [] {
      var n := |segs| - 1;
      ChunkPaged(segs[..n], topic);
      var ps := Chunk(segs[..n], topic);
      if ps == [] || Closes(Last(ps), topic) {
        OpenParagraph(ps, segs[n], topic);
      } else {
        ExtendParagraph(ps, segs[n], topic);
      }
    }
  }

  lemma OpenParagraph(ps: seq<seq<string>>, s: string, topic: string -> bool)
    requires Paged(ps, topic) && (ps == [] || Closes(Last(ps), topic))
    ensures Paged(ps + [[s]], topic)
  {
    var qs := ps + [[s]];
    forall k, j | 0 <= k < |qs| && 0 <= j < |qs[k]| - 1 ensures !topic(qs[k][j]) {
      assert qs[k] == ps[k];
    }
  }

  lemma ExtendParagraph(ps: seq<seq<string>>, s: string, topic: string -> bool)
    requires Paged(ps, topic) && ps != [] && !Closes(Last(ps), topic)
    ensures Paged(ps[..|ps| - 1] + [Last(ps) + [s]], topic)
  {
    var qs := ps[..|ps| - 1] + [Last(ps) + [s]];
    forall k, j | 0 <= k < |qs| && 0 <= j < |qs[k]| - 1 ensures !topic(qs[k][j]) {
      if k < |ps| - 1 {
        assert qs[k] == ps[k];
      } else if j < |Last(ps)| - 1 {
        assert qs[k][j] == ps[k][j];
      } else {
        assert qs[k][j] == Last(ps)[j];
      }
    }
    forall k | 0 <= k < |qs| - 1 ensures qs[k] != [] && Closes(qs[k], topic) {
      assert qs[k] == ps[k];
    }
  }

  lemma DropLastParagraph(ps: seq<seq<string>>, topic: string -> bool)
    requires Paged(ps, topic) && ps != []
    ensures Paged(ps[..|ps| - 1], topic)
    ensures |ps| > 1 ==> Closes(Last(ps[..|ps| - 1]), topic)
  {
    var init := ps[..|ps| - 1];
    forall k, j | 0 <= k < |init| && 0 <= j < |init[k]| - 1 ensures !topic(init[k][j]) {
      assert init[k] == ps[k];
    }
    if |ps| > 1 {
      assert Last(init) == ps[|ps| - 2];
    }
  }

  lemma DropLastSegment(ps: seq<seq<string>>, topic: string -> bool)
    requires Paged(ps, topic) && ps != [] && |Last(ps)| > 1
    ensures var g := Last(ps); var h := g[..|g| - 1];
      Paged(ps[..|ps| - 1] + [h], topic) && h != [] && !Closes(h, topic)
  {
    var g := Last(ps);
    var h := g[..|g| - 1];
    var qs := ps[..|ps| - 1] + [h];
    forall k, j | 0 <= k < |qs| && 0 <= j < |qs[k]| - 1 ensures !topic(qs[k][j]) {
      if k < |ps| - 1 {
        assert qs[k] == ps[k];
      } else {
        assert qs[k][j] == g[j];
      }
    }
    forall k | 0 <= k < |qs| - 1 ensures qs[k] != [] && Closes(qs[k], topic) {
      assert qs[k] == ps[k];
    }
    assert Last(h) == g[|g| - 2];
  }

  /** The pass is the only way to group `segs` into paragraphs of that shape. */
  lemma {:induction false} ChunkUnique(segs: seq<string>, ps: seq<seq<string>>, topic: string -> bool)
    requires Paged(ps, topic) && Concat(ps) == segs
    ensures ps == Chunk(segs, topic)
    decreases |segs|, 1
  {
    if ps != [] {
      assert Last(ps) != [];
      if |Last(ps)| == 1 {
        UniqueWithSingleSegment(segs, ps, topic);
      } else {
        UniqueWithLongerParagraph(segs, ps, topic);
      }
    }
  }

  lemma {:induction false} UniqueWithSingleSegment(segs: seq<string>, ps: seq<seq<string>>, topic: string -> bool)
    requires Paged(ps, topic) && Concat(ps) == segs && ps != [] && |Last(ps)| == 1
    ensures ps == Chunk(segs, topic)
    decreases |segs|, 0
  {
    ConcatDropSingleton(ps, segs);
    var n := |segs| - 1;
    DropLastParagraph(ps, topic);
    ChunkUnique(segs[..n], ps[..|ps| - 1], topic);
  }

  lemma {:induction false} UniqueWithLongerParagraph(segs: seq<string>, ps: seq<seq<string>>, topic: string -> bool)
    requires Paged(ps, topic) && Concat(ps) == segs && ps != [] && |Last(ps)| > 1
    ensures ps == Chunk(segs, topic)
    decreases |segs|, 0
  {
    var g := Last(ps);
    var shorter := ps[..|ps| - 1] + [g[..|g| - 1]];
    ConcatDropLastElement(ps, segs);
    var n := |segs| - 1;
    DropLastSegment(ps, topic);
    ChunkUnique(segs[..n], shorter, topic);
    ExtendedChunk(segs, shorter, topic);
  }

  lemma ExtendedChunk(segs: seq<string>, ps: seq<seq<string>>, topic: string -> bool)
    requires segs != [] && ps == Chunk(segs[..|segs| - 1], topic)
    requires ps != [] && !Closes(Last(ps), topic)
    ensures Chunk(segs, topic) == ps[..|ps| - 1] + [Last(ps) + [Last(segs)]]
  {
  }

  /** Thirteen segments, none of them a topic change, make a paragraph of
      twelve and a paragraph of one. */
  lemma ThirteenPlainSegments(segs: seq<string>, topic: string -> bool)
    requires |segs| == 13 && forall k :: 0 <= k < |segs| ==> !topic(segs[k])
    ensures Chunk(segs, topic) == [segs[..12], segs[12..]]
    ensures |Chunk(segs, topic)[0]| == 12 && |Chunk(segs, topic)[1]| == 1
  {
    var ps := [segs[..12], segs[12..]];
    assert Concat(ps) == segs by {
      assert ps[..1] == [segs[..12]];
      assert Concat([segs[..12]]) == segs[..12] by {
        assert [segs[..12]][..0] == [];
      }
    }
    forall k, j | 0 <= k < |ps| && 0 <= j < |ps[k]| - 1 ensures !topic(ps[k][j]) {
      assert ps[k][j] == segs[12 * k + j];
    }
    assert Closes(ps[0], topic);
    ChunkUnique(segs, ps, topic);
  }

  /** The paragraph texts: each paragraph's segments joined with single spaces. */
  function Paragraphs(segs: seq<string>): seq<string> {
    JoinEach(Chunk(segs, IsTopic), " ")
  }

  /** The paragraph loop: each segment is appended to the open paragraph and
      the counter bumped; at twelve segments or on a topic change the
      paragraph is flushed and the counter reset. */
  method BuildParagraphs(segments: seq<string>) returns (paragraphs: seq<string>)
    ensures paragraphs == Paragraphs(segments)
  {
    paragraphs := GroupParagraphs(segments, IsTopic);
  }

  /** The paragraphs of `ps` already flushed by the pass. */
  function Flushed(ps: seq<seq<string>>, topic: string -> bool): seq<seq<string>> {
    if ps == [] || Closes(Last(ps), topic) then ps else ps[..|ps| - 1]
  }

  /** The segments of the paragraph still open after the pass built `ps`. */
  function Open(ps: seq<seq<string>>, topic: string -> bool): seq<string> {
    if ps == [] || Closes(Last(ps), topic) then [] else Last(ps)
  }

  /** The paragraph loop, with `topic` as the topic-change test. */
  method GroupParagraphs(segments: seq<string>, topic: string -> bool) returns (paragraphs: seq<string>)
    ensures paragraphs == JoinEach(Chunk(segments, topic), " ")
  {
    paragraphs := [];
    var current: seq<string> := [];
    var size: nat := 0;
    for i := 0 to |segments|
      invariant paragraphs == Written(segments[..i], topic) && current == Gathered(segments[..i], topic)
      invariant size == |current|
    {
      ParagraphStep(segments, i, topic);
      paragraphs, current, size := TakeSegment(paragraphs, current, size, segments[i], topic);
    }
    FinalParagraph(segments, topic);
    if current != [] {
      paragraphs := paragraphs + [Join(current, " ")];
    }
  }

  /** The body of the loop: the segment joins the open paragraph and the
      counter is bumped; at the cap or on a topic change the paragraph is
      flushed and the counter reset. */
  method TakeSegment(paragraphs: seq<string>, current: seq<string>, size: nat, segment: string, topic: string -> bool)
    returns (paragraphs': seq<string>, current': seq<string>, size': nat)
    requires size == |current|
    ensures var grown := current + [segment];
      if Closes(grown, topic) then paragraphs' == paragraphs + [Join(grown, " ")] && current' == []
      else paragraphs' == paragraphs && current' == grown
    ensures size' == |current'|
  {
    current' := current + [segment];
    size' := size + 1;
    paragraphs' := paragraphs;
    if size' >= ParagraphCap || topic(segment) {
      paragraphs' := paragraphs + [Join(current', " ")];
      current' := [];
      size' := 0;
    }
  }

  /** The paragraph texts flushed after reading `segs`. */
  function Written(segs: seq<string>, topic: string -> bool): seq<string> {
    JoinEach(Flushed(Chunk(segs, topic), topic), " ")
  }

  /** The segments of the paragraph still open after reading `segs`. */
  function Gathered(segs: seq<string>, topic: string -> bool): seq<string> {
    Open(Chunk(segs, topic), topic)
  }

  /** One loop iteration: the segment joins the open paragraph, which is
      flushed when it closes. */
  lemma ParagraphStep(segs: seq<string>, i: nat, topic: string -> bool)
    requires i < |segs|
    ensures var grown := Gathered(segs[..i], topic) + [segs[i]];
      if Closes(grown, topic) then
        Written(segs[..i + 1], topic) == Written(segs[..i], topic) + [Join(grown, " ")] && Gathered(segs[..i + 1], topic) == []
      else
        Written(segs[..i + 1], topic) == Written(segs[..i], topic) && Gathered(segs[..i + 1], topic) == grown
  {
    var ps := Chunk(segs[..i], topic);
    ChunkStep(segs, i, topic);
    OpenStep(ps, segs[i], topic);
    var qs := Chunk(segs[..i + 1], topic);
    if Closes(Last(qs), topic) {
      JoinEachSnoc(qs, " ");
    }
  }

  /** After the loop, flushing the open paragraph completes the paragraphs. */
  lemma FinalParagraph(segs: seq<string>, topic: string -> bool)
    ensures var rest := Gathered(segs[..|segs|], topic);
      JoinEach(Chunk(segs, topic), " ") == Written(segs[..|segs|], topic) + (if rest == [] then [] else [Join(rest, " ")])
  {
    WholeSlice(segs, topic);
    var ps := Chunk(segs, topic);
    if ps != [] && !Closes(Last(ps), topic) {
      JoinEachSnoc(ps, " ");
    }
  }

  lemma WholeSlice(segs: seq<string>, topic: string -> bool)
    ensures Chunk(segs[..|segs|], topic) == Chunk(segs, topic)
  {
    assert segs[..|segs|] == segs;
  }

  /** After one more segment, the open paragraph has grown by that segment and
      the flushed paragraphs are those flushed before. */
  lemma OpenStep(ps: seq<seq<string>>, s: string, topic: string -> bool)
    ensures var qs := if ps == [] || Closes(Last(ps), topic) then ps + [[s]] else ps[..|ps| - 1] + [Last(ps) + [s]];
      qs != [] && Last(qs) == Open(ps, topic) + [s] && qs[..|qs| - 1] == Flushed(ps, topic)
  {
    if ps == [] || Closes(Last(ps), topic) {
      assert (ps + [[s]])[..|ps|] == ps;
    } else {
      assert (ps[..|ps| - 1] + [Last(ps) + [s]])[..|ps| - 1] == ps[..|ps| - 1];
    }
  }

  /** One more segment opens a paragraph or joins the open one. */
  lemma ChunkStep(segs: seq<string>, i: nat, topic: string -> bool)
    requires i < |segs|
    ensures var ps := Chunk(segs[..i], topic);
      Chunk(segs[..i + 1], topic) ==
        if ps == [] || Closes(Last(ps), topic) then ps + [[segs[i]]]
        else ps[..|ps| - 1] + [Last(ps) + [segs[i]]]
  {
    assert segs[..i + 1] == segs[..i] + [segs[i]];
    ChunkSnoc(segs[..i], segs[i], topic);
  }

  lemma ChunkSnoc(segs: seq<string>, s: string, topic: string -> bool)
    ensures var ps := Chunk(segs, topic);
      Chunk(segs + [s], topic) ==
        if ps == [] || Closes(Last(ps), topic) then ps + [[s]]
        else ps[..|ps| - 1] + [Last(ps) + [s]]
  {
    assert (segs + [s])[..|segs|] == segs;
  }

  /** The text of the transcript: paragraphs separated by blank lines. */
  function Document(segs: seq<string>): (text: string)
    ensures segs == [] ==> text == ""
  {
    Join(Paragraphs(segs), ParagraphSeparator)
  }

  /** A string absent from every segment, and holding neither a space nor a
      newline, is absent from the document. */
  lemma DocumentAvoids(segs: seq<string>, pat: string)
    requires pat != [] && ' ' !in pat && '\n' !in pat
    requires forall k :: 0 <= k < |segs| ==> !Contains(segs[k], pat)
    ensures !Contains(Document(segs), pat)
  {
    ParagraphsAvoid(segs, IsTopic, pat);
    JoinAvoids(Paragraphs(segs), ParagraphSeparator, pat);
  }

  lemma ParagraphsAvoid(segs: seq<string>, topic: string -> bool, pat: string)
    requires pat != [] && ' ' !in pat
    requires forall k :: 0 <= k < |segs| ==> !Contains(segs[k], pat)
    ensures forall k :: 0 <= k < |Chunk(segs, topic)| ==> !Contains(JoinEach(Chunk(segs, topic), " ")[k], pat)
  {
    var ps := Chunk(segs, topic);
    forall k | 0 <= k < |ps| ensures !Contains(Join(ps[k], " "), pat) {
      forall j | 0 <= j < |ps[k]| ensures !Contains(ps[k][j], pat) {
        InConcat(ps, k, j);
      }
      JoinAvoids(ps[k], " ", pat);
    }
  }

  /** Every paragraph holds one to twelve segments, in order and without loss,
      and every paragraph but the last was closed by the cap or a topic change. */
  lemma ParagraphsShape(segs: seq<string>)
    ensures var ps := Chunk(segs, IsTopic);
      Concat(ps) == segs
      && (forall k :: 0 <= k < |ps| ==> 1 <= |ps[k]| <= ParagraphCap)
      && (forall k :: 0 <= k < |ps| - 1 ==> |ps[k]| == ParagraphCap || IsTopic(Last(ps[k])))
      && (forall k, j :: 0 <= k < |ps| && 0 <= j < |ps[k]| && IsTopic(ps[k][j]) ==> j == |ps[k]| - 1)
  {
    ChunkPaged(segs, IsTopic);
  }

  /** Topic phrases are matched ignoring case: a segment mentioning "nasa" in
      any capitalisation is a topic change. */
  lemma NasaIsTopic(segment: string)
    requires Contains(Lower(segment), "nasa")
    ensures IsTopic(segment)
  {
    assert TopicWords[5] == "NASA";
    assert Lower("NASA") == "nasa";
  }
}

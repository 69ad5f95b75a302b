/** Transcript extraction: the captured caption bodies are flattened to one
    line each, merged into segments, grouped into paragraphs, and the
    paragraphs are separated by blank lines. */
module Transcript {
  import opened Text
  import opened Segmenter
  import opened ParagraphBuilder

  /** The transcript text made from the captured caption bodies. */
  function TranscriptText(bodies: seq<string>): (text: string)
    ensures bodies == [] ==> text == ""
  {
    Document(Segments(FlattenLines(bodies)))
  }

  /** The extraction as the scripts run it: flatten, segment, paragraph, join. */
  method ExtractText(bodies: seq<string>) returns (text: string)
    ensures text == TranscriptText(bodies)
  {
    var lines := FlattenLines(bodies);
    var segments := SegmentLines(lines);
    var paragraphs := BuildParagraphs(segments);
    text := Join(paragraphs, ParagraphSeparator);
  }

  /** No sound-effect marker survives into the transcript, neither inside a
      paragraph nor across a join. */
  lemma TranscriptNoiseFree(bodies: seq<string>)
    ensures !Contains(TranscriptText(bodies), "[MUSIC")
    ensures !Contains(TranscriptText(bodies), "[LAUGHS]")
  {
    var segs := Segments(FlattenLines(bodies));
    SegmentsNoiseFree(FlattenLines(bodies));
    MarkersOneWord();
    DocumentAvoids(segs, "[MUSIC");
    DocumentAvoids(segs, "[LAUGHS]");
  }

  /** Neither marker holds a space or a line break, so no join can create one. */
  lemma MarkersOneWord()
    ensures ' ' !in "[MUSIC" && '\n' !in "[MUSIC"
    ensures ' ' !in "[LAUGHS]" && '\n' !in "[LAUGHS]"
  {
  }

  /** Captions that are all sound effects give an empty transcript. */
  lemma AllNoiseIsEmpty(bodies: seq<string>)
    requires forall k :: 0 <= k < |bodies| ==> IsNoise(FlattenLine(bodies[k]))
    ensures TranscriptText(bodies) == ""
  {
    RemoveAll(FlattenLines(bodies), IsNoise);
  }
}

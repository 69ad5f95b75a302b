/** The blank-line block parser: the text is cut at every "\n\n", and each block
    of at least three lines gives one `(number, timestamp, text)` entry. The
    timecode line is passed through without being checked. */
module SrtParser {
  import opened Text

  /** One parsed caption block, as the tuple `(subtitle_number, timestamp, text)`. */
  datatype Subtitle = Subtitle(number: string, timestamp: string, text: string)

  const BlockSeparator: string := "\n\n"

  /** A field as the parser leaves it: one line, no whitespace at either end. */
  predicate SingleLine(s: string) {
    Trimmed(s) && '\n' !in s
  }

  /** `block.strip().split('\n')` */
  function BlockLines(block: string): seq<string> {
    Split(Strip(block), "\n")
  }

  /** The entry one block contributes; None for a blank block or one of fewer than three lines. */
  function BlockEntry(block: string): (r: Option<Subtitle>)
    ensures r.None? <==> AllSpace(block) || |BlockLines(block)| < 3
    ensures r.Some? ==> SingleLine(r.value.number) && SingleLine(r.value.timestamp)
    ensures r.Some? ==> SingleLine(r.value.text)
  {
    if Strip(block) == [] then None
    else
      var lines := BlockLines(block);
      if |lines| < 3 then None
      else
        FieldsSingleLine(lines);
        Some(Subtitle(Strip(lines[0]), Strip(lines[1]), Strip(Join(lines[2..], " "))))
  }

  lemma FieldsSingleLine(lines: seq<string>)
    requires |lines| >= 3
    requires forall k :: 0 <= k < |lines| ==> !Contains(lines[k], "\n")
    ensures '\n' !in Strip(lines[0]) && '\n' !in Strip(lines[1])
    ensures '\n' !in Strip(Join(lines[2..], " "))
  {
    ContainsChar(lines[0], '\n');
    ContainsChar(lines[1], '\n');
    StripKeepsAbsence(lines[0], '\n');
    StripKeepsAbsence(lines[1], '\n');
    var rest := lines[2..];
    assert forall k :: 0 <= k < |rest| ==> rest[k] == lines[k + 2];
    JoinAvoids(rest, " ", "\n");
    ContainsChar(Join(rest, " "), '\n');
    StripKeepsAbsence(Join(rest, " "), '\n');
  }

  /** The entries that `entry` gives for a sequence of blocks, in block order.
      Only `BlockEntry` is ever passed; the parameter keeps the lemmas about
      the loop's shape apart from the details of one block. */
  function Collect(blocks: seq<string>, entry: string -> Option<Subtitle>): (r: seq<Subtitle>)
    ensures |r| <= |blocks|
    decreases |blocks|
  {
    if blocks == [] then []
    else
      var init := Collect(blocks[..|blocks| - 1], entry);
      match entry(blocks[|blocks| - 1])
      case None => init
      case Some(e) => init + [e]
  }

  /** What `parse_srt_content` returns for a whole file's text. */
  function Parse(content: string): seq<Subtitle> {
    Collect(Split(content, BlockSeparator), BlockEntry)
  }

  /** `parse_srt_content`: the loop over the "\n\n"-separated blocks. */
  method ParseSrtContent(content: string) returns (subtitles: seq<Subtitle>)
    ensures subtitles == Parse(content)
  {
    var blocks := Split(content, BlockSeparator);
    subtitles := [];
    for i := 0 to |blocks|
      invariant subtitles == Collect(blocks[..i], BlockEntry)
    {
      var block := blocks[i];
      if Strip(block) == [] {
        SkipBlock(blocks, i);
        continue;
      }
      var lines := Split(Strip(block), "\n");
      if |lines| < 3 {
        SkipBlock(blocks, i);
        continue;
      }
      var number := Strip(lines[0]);
      var timestamp := Strip(lines[1]);
      var text := Strip(Join(lines[2..], " "));
      KeepBlock(blocks, i);
      subtitles := subtitles + [Subtitle(number, timestamp, text)];
    }
    assert blocks[..|blocks|] == blocks;
  }

  lemma CollectStep(blocks: seq<string>, i: nat, entry: string -> Option<Subtitle>)
    requires i < |blocks|
    ensures Collect(blocks[..i + 1], entry) ==
      Collect(blocks[..i], entry) + (if entry(blocks[i]).Some? then [entry(blocks[i]).value] else [])
  {
    assert blocks[..i + 1][..i] == blocks[..i];
  }

  lemma SkipBlock(blocks: seq<string>, i: nat)
    requires i < |blocks|
    requires Strip(blocks[i]) == [] || |Split(Strip(blocks[i]), "\n")| < 3
    ensures Collect(blocks[..i + 1], BlockEntry) == Collect(blocks[..i], BlockEntry)
  {
    CollectStep(blocks, i, BlockEntry);
  }

  lemma KeepBlock(blocks: seq<string>, i: nat)
    requires i < |blocks|
    requires Strip(blocks[i]) != [] && |Split(Strip(blocks[i]), "\n")| >= 3
    ensures var lines := Split(Strip(blocks[i]), "\n");
      Collect(blocks[..i + 1], BlockEntry) == Collect(blocks[..i], BlockEntry)
        + [Subtitle(Strip(lines[0]), Strip(lines[1]), Strip(Join(lines[2..], " ")))]
  {
    CollectStep(blocks, i, BlockEntry);
  }

  /** `origin` traces each of `rs` back to the block it came from: the blocks
      are distinct and in order, each gives its entry, and every block left
      out gives none. */
  predicate Traces(blocks: seq<string>, entry: string -> Option<Subtitle>, rs: seq<Subtitle>, origin: seq<nat>) {
    |origin| == |rs|
    && (forall k :: 0 <= k < |origin| ==> origin[k] < |blocks|)
    && (forall k, l :: 0 <= k < l < |origin| ==> origin[k] < origin[l])
    && (forall k :: 0 <= k < |origin| ==> entry(blocks[origin[k]]) == Some(rs[k]))
    && (forall j :: 0 <= j < |blocks| && j !in origin ==> entry(blocks[j]).None?)
  }

  /** Every entry comes from its own block, in block order, and every block that
      gives no entry is blank or too short. */
  lemma {:induction false} CollectOrigins(blocks: seq<string>, entry: string -> Option<Subtitle>)
    returns (origin: seq<nat>)
    ensures Traces(blocks, entry, Collect(blocks, entry), origin)
    decreases |blocks|
  {
    if blocks == [] {
      origin := [];
    } else {
      var n := |blocks| - 1;
      var o := CollectOrigins(blocks[..n], entry);
      match entry(blocks[n])
      case None =>
        origin := o;
        TracesSkip(blocks, entry, Collect(blocks[..n], entry), o);
      case Some(e) =>
        origin := o + [n];
        TracesKeep(blocks, entry, Collect(blocks[..n], entry), o, e);
    }
  }

  lemma TracesSkip(blocks: seq<string>, entry: string -> Option<Subtitle>, rs: seq<Subtitle>, o: seq<nat>)
    requires blocks != [] && Traces(blocks[..|blocks| - 1], entry, rs, o) && entry(Last(blocks)).None?
    ensures Traces(blocks, entry, rs, o)
  {
    var init := blocks[..|blocks| - 1];
    forall k | 0 <= k < |o| ensures entry(blocks[o[k]]) == Some(rs[k]) {
      assert init[o[k]] == blocks[o[k]];
    }
    forall j | 0 <= j < |blocks| && j !in o ensures entry(blocks[j]).None? {
      if j < |init| {
        assert init[j] == blocks[j];
      }
    }
  }

  lemma TracesKeep(blocks: seq<string>, entry: string -> Option<Subtitle>, rs: seq<Subtitle>, o: seq<nat>, e: Subtitle)
    requires blocks != [] && Traces(blocks[..|blocks| - 1], entry, rs, o) && entry(Last(blocks)) == Some(e)
    ensures Traces(blocks, entry, rs + [e], o + [|blocks| - 1])
  {
    var init, n := blocks[..|blocks| - 1], |blocks| - 1;
    var origin := o + [n];
    forall k | 0 <= k < |origin| ensures entry(blocks[origin[k]]) == Some((rs + [e])[k]) {
      if k < |o| {
        assert init[o[k]] == blocks[o[k]];
      }
    }
    forall j | 0 <= j < |blocks| && j !in origin ensures entry(blocks[j]).None? {
      assert j < n && j !in o;
      assert init[j] == blocks[j];
    }
  }

  /** The parser's entries, each traced back to the block it came from; a
      block that gives none is blank or has fewer than three lines
      (`BlockEntry`). */
  lemma ParseOrigins(content: string) returns (origin: seq<nat>)
    ensures Traces(Split(content, BlockSeparator), BlockEntry, Parse(content), origin)
  {
    origin := CollectOrigins(Split(content, BlockSeparator), BlockEntry);
  }

  /** Blocks are parsed independently: the entries of two runs of blocks are
      the entries of the first followed by those of the second. */
  lemma {:induction false} CollectAppend(xs: seq<string>, ys: seq<string>, entry: string -> Option<Subtitle>)
    ensures Collect(xs + ys, entry) == Collect(xs, entry) + Collect(ys, entry)
    decreases |ys|
  {
    if ys == [] {
      assert xs + ys == xs;
    } else {
      var n := |ys| - 1;
      CollectAppend(xs, ys[..n], entry);
      assert (xs + ys)[..|xs + ys| - 1] == xs + ys[..n];
      assert (xs + ys)[|xs + ys| - 1] == ys[n];
    }
  }

  /** A block holding only a number line and a timecode line gives no entry, and
      the blocks around it give the same entries as they would without it. */
  lemma MalformedBlockSkipped(before: seq<string>, number: string, timestamp: string, after: seq<string>)
    requires number != [] && SingleLine(number)
    requires timestamp != [] && SingleLine(timestamp)
    ensures BlockEntry(number + "\n" + timestamp) == None
    ensures Collect(before + [number + "\n" + timestamp] + after, BlockEntry)
         == Collect(before, BlockEntry) + Collect(after, BlockEntry)
  {
    var b := number + "\n" + timestamp;
    assert Join([number, timestamp], "\n") == b;
    StripFixpoint(b);
    ContainsChar(number, '\n');
    ContainsChar(timestamp, '\n');
    assert number + "\n"[..0] == number;
    SplitJoin([number, timestamp], "\n");
    CollectAppend(before + [b], after, BlockEntry);
    CollectAppend(before, [b], BlockEntry);
    assert [b][..0] == [];
  }

  /** The text of one well-formed SRT block. */
  function RenderBlock(e: Subtitle): string {
    e.number + "\n" + e.timestamp + "\n" + e.text
  }

  function RenderBlocks(subtitles: seq<Subtitle>): (blocks: seq<string>)
    ensures |blocks| == |subtitles|
    ensures forall k :: 0 <= k < |subtitles| ==> blocks[k] == RenderBlock(subtitles[k])
    decreases |subtitles|
  {
    if subtitles == [] then []
    else RenderBlocks(subtitles[..|subtitles| - 1]) + [RenderBlock(subtitles[|subtitles| - 1])]
  }

  /** SRT text for a list of entries: blocks separated by a blank line. */
  function Render(subtitles: seq<Subtitle>): string {
    Join(RenderBlocks(subtitles), BlockSeparator)
  }

  predicate WellFormed(e: Subtitle) {
    e.number != [] && e.timestamp != [] && e.text != []
    && SingleLine(e.number) && SingleLine(e.timestamp) && SingleLine(e.text)
  }

  /** A well-formed block parses back to the entry it was rendered from. */
  lemma BlockRoundTrip(e: Subtitle)
    requires WellFormed(e)
    ensures BlockEntry(RenderBlock(e)) == Some(e)
  {
    var b := RenderBlock(e);
    assert Join([e.timestamp, e.text], "\n") == e.timestamp + "\n" + e.text;
    assert Join([e.number, e.timestamp, e.text], "\n") == b;
    StripFixpoint(b);
    ContainsChar(e.number, '\n');
    ContainsChar(e.timestamp, '\n');
    ContainsChar(e.text, '\n');
    assert e.number + "\n"[..0] == e.number;
    assert e.timestamp + "\n"[..0] == e.timestamp;
    SplitJoin([e.number, e.timestamp, e.text], "\n");
    assert BlockLines(b)[2..] == [e.text];
    StripFixpoint(e.number);
    StripFixpoint(e.timestamp);
    StripFixpoint(e.text);
  }

  /** No blank line can start inside a rendered block. */
  lemma BlockHasNoBlankLine(e: Subtitle)
    requires WellFormed(e)
    ensures NoSplitInside(RenderBlock(e), BlockSeparator)
    ensures !Contains(RenderBlock(e), BlockSeparator)
  {
    var b := RenderBlock(e);
    var s := b + "\n";
    var n, t, x := e.number, e.timestamp, e.text;
    assert BlockSeparator[..1] == "\n";
    forall p | 0 <= p <= |s| ensures !(BlockSeparator <= s[p..]) {
      if p + 1 < |s| {
        if p < |n| {
          assert s[p] == n[p];
        } else if p == |n| {
          assert s[p + 1] == t[0];
        } else if p < |n| + 1 + |t| {
          assert s[p] == t[p - |n| - 1];
        } else if p == |n| + 1 + |t| {
          assert s[p + 1] == x[0];
        } else {
          assert s[p] == x[p - |n| - |t| - 2];
        }
      }
    }
    NotContains(s, BlockSeparator);
    ContainsExtend(b, "\n", BlockSeparator);
  }

  lemma ContainsExtend(s: string, z: string, pat: string)
    ensures Contains(s, pat) ==> Contains(s + z, pat)
  {
    if Contains(s, pat) {
      var j := ContainsWitness(s, pat);
      assert (s + z)[j..][..|pat|] == s[j..][..|pat|];
      ContainsAt(s + z, pat, j);
    }
  }

  /** When every block gives an entry, the entries are exactly those, in order. */
  lemma {:induction false} CollectAll(blocks: seq<string>, entry: string -> Option<Subtitle>, subtitles: seq<Subtitle>)
    requires |blocks| == |subtitles|
    requires forall k :: 0 <= k < |blocks| ==> entry(blocks[k]) == Some(subtitles[k])
    ensures Collect(blocks, entry) == subtitles
    decreases |blocks|
  {
    if blocks != [] {
      var n := |blocks| - 1;
      CollectAll(blocks[..n], entry, subtitles[..n]);
      assert subtitles == subtitles[..n] + [subtitles[n]];
    }
  }

  lemma CollectRendered(subtitles: seq<Subtitle>)
    requires forall k :: 0 <= k < |subtitles| ==> WellFormed(subtitles[k])
    ensures Collect(RenderBlocks(subtitles), BlockEntry) == subtitles
  {
    var blocks := RenderBlocks(subtitles);
    forall k | 0 <= k < |blocks| ensures BlockEntry(blocks[k]) == Some(subtitles[k]) {
      BlockRoundTrip(subtitles[k]);
    }
    CollectAll(blocks, BlockEntry, subtitles);
  }

  lemma RenderedBlocksSeparable(subtitles: seq<Subtitle>)
    requires forall k :: 0 <= k < |subtitles| ==> WellFormed(subtitles[k])
    ensures forall k :: 0 <= k < |subtitles| ==>
      NoSplitInside(RenderBlocks(subtitles)[k], BlockSeparator) && !Contains(RenderBlocks(subtitles)[k], BlockSeparator)
  {
    forall k | 0 <= k < |subtitles|
      ensures NoSplitInside(RenderBlocks(subtitles)[k], BlockSeparator)
      ensures !Contains(RenderBlocks(subtitles)[k], BlockSeparator)
    {
      BlockHasNoBlankLine(subtitles[k]);
    }
  }

  /** Parsing undoes rendering, with or without a blank line after the last block. */
  lemma ParseRender(subtitles: seq<Subtitle>)
    requires forall k :: 0 <= k < |subtitles| ==> WellFormed(subtitles[k])
    ensures Parse(Render(subtitles)) == subtitles
    ensures Parse(Render(subtitles) + BlockSeparator) == subtitles
  {
    if subtitles == [] {
      ParseNothing();
    } else {
      var blocks := RenderBlocks(subtitles);
      CollectRendered(subtitles);
      RenderedBlocksSeparable(subtitles);
      SplitJoin(blocks, BlockSeparator);
      ParseRenderTrailing(subtitles);
    }
  }

  lemma ParseRenderTrailing(subtitles: seq<Subtitle>)
    requires subtitles != []
    requires forall k :: 0 <= k < |subtitles| ==> WellFormed(subtitles[k])
    ensures Parse(Render(subtitles) + BlockSeparator) == subtitles
  {
    var blocks := RenderBlocks(subtitles);
    var padded := blocks + [""];
    RenderedBlocksSeparable(subtitles);
    JoinAppend(blocks, BlockSeparator, "");
    assert Render(subtitles) + BlockSeparator == Join(padded, BlockSeparator);
    forall k | 0 <= k < |padded| - 1 ensures NoSplitInside(padded[k], BlockSeparator) {
      assert padded[k] == blocks[k];
    }
    assert !Contains(padded[|padded| - 1], BlockSeparator);
    SplitJoin(padded, BlockSeparator);
    CollectAppend(blocks, [""], BlockEntry);
    EmptyBlockSkipped();
    CollectRendered(subtitles);
  }

  lemma EmptyBlockSkipped()
    ensures Collect([""], BlockEntry) == []
  {
    assert [""][..0] == [];
    assert BlockEntry("") == None;
  }

  /** Empty text, or a lone blank line, holds no entries. */
  lemma ParseNothing()
    ensures Parse("") == [] && Parse(BlockSeparator) == []
  {
    assert Split("", BlockSeparator) == [""];
    assert Join(["", ""], BlockSeparator) == BlockSeparator;
    assert "" + BlockSeparator[..1] == "\n";
    assert !Contains("\n", BlockSeparator);
    SplitJoin(["", ""], BlockSeparator);
    assert ["", ""][..1] == [""] && [""][..0] == [];
  }

  lemma {:induction false} JoinAppend(parts: seq<string>, sep: string, last: string)
    requires parts != []
    ensures Join(parts + [last], sep) == Join(parts, sep) + sep + last
    decreases |parts|
  {
    if |parts| > 1 {
      JoinAppend(parts[1..], sep, last);
      assert (parts + [last])[1..] == parts[1..] + [last];
    }
  }
}

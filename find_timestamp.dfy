/** The command-line snippet search: whitespace-normalise the snippet (with no
    guard against an empty one), look for it in the space-joined texts of all
    entries, and if it is there return the first entry whose text contains it;
    otherwise fall back to the best case-sensitive fuzzy score above the
    threshold. */
module FindTimestamp {
  import opened Text
  import opened SrtParser
  import opened Matching

  /** All entry texts joined with single spaces: every entry's text occurs in it. */
  function AllText(subtitles: seq<Subtitle>): (all: string)
    ensures forall k :: 0 <= k < |subtitles| ==> Contains(all, subtitles[k].text)
  {
    var texts := Texts(subtitles);
    forall k | 0 <= k < |subtitles| ensures Contains(Join(texts, " "), subtitles[k].text) {
      ContainsAt(texts[k], texts[k], 0);
      JoinContainsPart(texts, " ", k, texts[k]);
    }
    Join(texts, " ")
  }

  /** What the search returns; `None` stands for the `(None, None, None)` triple. */
  function Search(subtitles: seq<Subtitle>, textSnippet: string, ratio: (string, string) -> real): (r: Option<Match>)
    ensures subtitles == [] ==> r.None?
  {
    SearchNormal(subtitles, Normalize(textSnippet), ratio)
  }

  /** The search for an already normalised snippet: the gate, the first entry
      containing the snippet, or else the fuzzy fallback. */
  function SearchNormal(subtitles: seq<Subtitle>, snippet: string, ratio: (string, string) -> real): (r: Option<Match>)
    ensures subtitles == [] ==> r.None?
  {
    if Contains(AllText(subtitles), snippet) && FirstHit(subtitles, snippet, false).Some? then
      Some(MatchOf(subtitles[FirstHit(subtitles, snippet, false).value]))
    else
      Fuzzy(subtitles, snippet, ratio, false)
  }

  /** The search, with its gate, its early-return scan and its fuzzy fallback. */
  method FindTimestampForText(subtitles: seq<Subtitle>, textSnippet: string, ratio: (string, string) -> real)
    returns (result: Option<Match>)
    ensures result == Search(subtitles, textSnippet, ratio)
  {
    var snippet := Normalize(textSnippet);
    var allText := AllText(subtitles);
    if Contains(allText, snippet) {
      var found := ScanEntries(subtitles, snippet);
      if found.Some? {
        return found;
      }
    }
    result := FuzzyMatch(subtitles, snippet, ratio, false);
  }

  /** The early-return scan: the first entry whose text contains the snippet. */
  method ScanEntries(subtitles: seq<Subtitle>, snippet: string) returns (found: Option<Match>)
    ensures found.None? <==> FirstHit(subtitles, snippet, false).None?
    ensures found.Some? ==> found.value == MatchOf(subtitles[FirstHit(subtitles, snippet, false).value])
  {
    for i := 0 to |subtitles|
      invariant forall j :: 0 <= j < i ==> !Hit(subtitles[j], snippet, false)
    {
      var e := subtitles[i];
      if Contains(e.text, snippet) {
        FirstHitIs(subtitles, snippet, false, i);
        return Some(Match(e.number, StartTime(e.timestamp), e.text));
      }
    }
    return None;
  }

  /** The `all_text` gate never changes the outcome: the first entry whose text
      contains the snippet is returned, and with none the fuzzy fallback runs. */
  lemma GateNeverDecides(subtitles: seq<Subtitle>, textSnippet: string, ratio: (string, string) -> real)
    ensures var snippet := Normalize(textSnippet);
      match FirstHit(subtitles, snippet, false)
      case Some(k) => Search(subtitles, textSnippet, ratio) == Some(MatchOf(subtitles[k]))
      case None => Search(subtitles, textSnippet, ratio) == Fuzzy(subtitles, snippet, ratio, false)
  {
    var snippet := Normalize(textSnippet);
    match FirstHit(subtitles, snippet, false)
    case Some(k) =>
      JoinContainsPart(Texts(subtitles), " ", k, snippet);
    case None =>
  }

  /** A snippet found in the joined text only across the boundary between two
      entries passes the gate but matches no entry, so it goes to the fuzzy
      fallback: texts `ab` and `cd`, snippet `b c`. */
  lemma AcrossBoundary(first: Subtitle, second: Subtitle, a: char, b: char, c: char, d: char,
                       ratio: (string, string) -> real)
    requires !IsSpace(b) && !IsSpace(c)
    requires first.text == [a, b] && second.text == [c, d]
    ensures Contains(AllText([first, second]), [b, ' ', c])
    ensures Search([first, second], [b, ' ', c], ratio) == Fuzzy([first, second], [b, ' ', c], ratio, false)
  {
    var subtitles := [first, second];
    var snippet := [b, ' ', c];
    TwoTexts(first, second);
    assert snippet <= AllText(subtitles)[1..];
    ContainsAt(AllText(subtitles), snippet, 1);
    SpacedPair(b, c);
    NotContainsShorter([a, b], snippet);
    NotContainsShorter([c, d], snippet);
    assert !Hit(subtitles[0], snippet, false) && !Hit(subtitles[1], snippet, false);
    GateNeverDecides(subtitles, snippet, ratio);
  }

  lemma TwoTexts(first: Subtitle, second: Subtitle)
    ensures AllText([first, second]) == first.text + " " + second.text
  {
    var texts := Texts([first, second]);
    assert texts == [first.text, second.text];
    assert texts[1..] == [second.text];
    assert Join(texts, " ") == first.text + " " + Join([second.text], " ");
  }

  lemma SpacedPair(b: char, c: char)
    requires !IsSpace(b) && !IsSpace(c)
    ensures Normalize([b, ' ', c]) == [b, ' ', c]
  {
    assert Normal([b, ' ', c]);
    NormalFixpoint([b, ' ', c]);
  }

  /** With no empty-snippet guard, a blank snippet is contained in every text
      and returns the first entry. */
  lemma BlankSnippetFirstEntry(subtitles: seq<Subtitle>, textSnippet: string, ratio: (string, string) -> real)
    requires AllSpace(textSnippet) && subtitles != []
    ensures Search(subtitles, textSnippet, ratio) == Some(MatchOf(subtitles[0]))
  {
    ContainsAt(subtitles[0].text, "", 0);
    FirstHitIs(subtitles, "", false, 0);
    GateNeverDecides(subtitles, textSnippet, ratio);
  }

  /** With no entry containing the snippet, a result is returned exactly when
      some entry's case-sensitive score is above the threshold. */
  lemma FuzzyAboveThreshold(subtitles: seq<Subtitle>, textSnippet: string, ratio: (string, string) -> real)
    requires forall j :: 0 <= j < |subtitles| ==> !Contains(subtitles[j].text, Normalize(textSnippet))
    ensures Search(subtitles, textSnippet, ratio).Some? <==>
      exists j :: 0 <= j < |subtitles| && ratio(Normalize(textSnippet), subtitles[j].text) > Threshold
  {
    var snippet := Normalize(textSnippet);
    GateNeverDecides(subtitles, textSnippet, ratio);
    FuzzyThreshold(subtitles, snippet, ratio, false);
    var rows := ScoresOf(subtitles, snippet, ratio, false);
    assert forall j :: 0 <= j < |subtitles| ==> rows[j].score == ratio(snippet, subtitles[j].text);
  }

  /** Whatever the search returns is one of the entries, with the start time of
      its timecode line. */
  lemma ResultIsEntry(subtitles: seq<Subtitle>, textSnippet: string, ratio: (string, string) -> real)
    ensures var r := Search(subtitles, textSnippet, ratio);
      r.Some? ==> exists j :: 0 <= j < |subtitles| && r.value == MatchOf(subtitles[j])
  {
    GateNeverDecides(subtitles, textSnippet, ratio);
    FuzzyThreshold(subtitles, Normalize(textSnippet), ratio, false);
  }

  /** Searching for an entry's own (already normal) text finds that entry or an
      earlier one whose text also holds it. */
  lemma OwnTextFound(subtitles: seq<Subtitle>, k: nat, ratio: (string, string) -> real)
    requires k < |subtitles| && Normal(subtitles[k].text)
    ensures exists j :: (0 <= j <= k && Contains(subtitles[j].text, subtitles[k].text)
      && Search(subtitles, subtitles[k].text, ratio) == Some(MatchOf(subtitles[j])))
  {
    var t := subtitles[k].text;
    NormalFixpoint(t);
    ContainsAt(t, t, 0);
    GateNeverDecides(subtitles, t, ratio);
    var j := FirstHit(subtitles, t, false).value;
    assert j <= k;
  }
}

/** The web application's snippet search: whitespace-normalise the snippet,
    refuse an empty one, return the first entry whose text contains it ignoring
    case, and otherwise fall back to the best lowercased fuzzy score above the
    threshold. */
module SrtAnalyzerApp {
  import opened Text
  import opened SrtParser
  import opened Matching

  /** The exact-match list the search builds: one triple per entry whose
      lowercased text contains the lowercased snippet, in entry order. */
  function Hits(subtitles: seq<Subtitle>, snippet: string): (hits: seq<Match>)
    ensures |hits| <= |subtitles|
    decreases |subtitles|
  {
    if subtitles == [] then []
    else
      var n := |subtitles| - 1;
      Hits(subtitles[..n], snippet) + (if Hit(subtitles[n], snippet, true) then [MatchOf(subtitles[n])] else [])
  }

  /** What the search returns; `None` stands for the `(None, None, None)` triple. */
  function Search(subtitles: seq<Subtitle>, textSnippet: string, ratio: (string, string) -> real): (r: Option<Match>)
    ensures AllSpace(textSnippet) ==> r.None?
    ensures subtitles == [] ==> r.None?
  {
    var snippet := Normalize(textSnippet);
    if snippet == [] then None
    else
      var hits := Hits(subtitles, snippet);
      if hits != [] then Some(hits[0]) else Fuzzy(subtitles, snippet, ratio, true)
  }

  /** The search, with its exact-match loop and its fuzzy fallback. */
  method FindTimestampForText(subtitles: seq<Subtitle>, textSnippet: string, ratio: (string, string) -> real)
    returns (result: Option<Match>)
    ensures result == Search(subtitles, textSnippet, ratio)
  {
    var snippet := Normalize(textSnippet);
    if snippet == [] {
      return None;
    }
    var matches := CollectHits(subtitles, snippet, |subtitles|);
    assert subtitles[..|subtitles|] == subtitles;
    if matches != [] {
      return Some(matches[0]);
    }
    result := FuzzyMatch(subtitles, snippet, ratio, true);
  }

  /** The exact-match loop over the first `n` entries. */
  method CollectHits(subtitles: seq<Subtitle>, snippet: string, n: nat) returns (matches: seq<Match>)
    requires n <= |subtitles|
    ensures matches == Hits(subtitles[..n], snippet)
  {
    matches := [];
    for i := 0 to n
      invariant matches == Hits(subtitles[..i], snippet)
    {
      var e := subtitles[i];
      assert subtitles[..i + 1][..i] == subtitles[..i];
      if Contains(Lower(e.text), Lower(snippet)) {
        matches := matches + [Match(e.number, StartTime(e.timestamp), e.text)];
      }
    }
  }

  /** The head of the exact-match list is the first entry whose text holds the
      snippet, and the list is empty exactly when no entry does. */
  lemma {:induction false} HitsHead(subtitles: seq<Subtitle>, snippet: string)
    ensures Hits(subtitles, snippet) == [] <==> FirstHit(subtitles, snippet, true).None?
    ensures Hits(subtitles, snippet) != [] ==>
      Hits(subtitles, snippet)[0] == MatchOf(subtitles[FirstHit(subtitles, snippet, true).value])
    decreases |subtitles|
  {
    if subtitles != [] {
      var n := |subtitles| - 1;
      HitsHead(subtitles[..n], snippet);
      FirstHitSnoc(subtitles, snippet, true);
    }
  }

  /** A non-blank snippet held by some entry's text (ignoring case) returns the
      first such entry with its start time; when no entry holds it, the result
      is the fuzzy fallback on lowercased strings. */
  lemma FirstExactMatch(subtitles: seq<Subtitle>, textSnippet: string, ratio: (string, string) -> real)
    requires !AllSpace(textSnippet)
    ensures var snippet := Normalize(textSnippet);
      match FirstHit(subtitles, snippet, true)
      case Some(k) => Search(subtitles, textSnippet, ratio) == Some(MatchOf(subtitles[k]))
      case None => Search(subtitles, textSnippet, ratio) == Fuzzy(subtitles, snippet, ratio, true)
  {
    HitsHead(subtitles, Normalize(textSnippet));
  }

  /** Searching for an entry's own (already normal) text finds that entry or an
      earlier one whose text also holds it. */
  lemma OwnTextFound(subtitles: seq<Subtitle>, k: nat, ratio: (string, string) -> real)
    requires k < |subtitles|
    requires subtitles[k].text != [] && Normal(subtitles[k].text)
    ensures exists j :: (0 <= j <= k && Hit(subtitles[j], subtitles[k].text, true)
      && Search(subtitles, subtitles[k].text, ratio) == Some(MatchOf(subtitles[j])))
  {
    var t := subtitles[k].text;
    NormalFixpoint(t);
    assert Hit(subtitles[k], t, true) by {
      ContainsAt(Lower(t), Lower(t), 0);
    }
    FirstExactMatch(subtitles, t, ratio);
    var j := FirstHit(subtitles, t, true).value;
    assert j <= k;
  }

  /** With no exact hit, a result is returned exactly when some entry's
      lowercased score is above the threshold. */
  lemma FuzzyAboveThreshold(subtitles: seq<Subtitle>, textSnippet: string, ratio: (string, string) -> real)
    requires !AllSpace(textSnippet)
    requires forall j :: 0 <= j < |subtitles| ==> !Hit(subtitles[j], Normalize(textSnippet), true)
    ensures Search(subtitles, textSnippet, ratio).Some? <==>
      exists j :: 0 <= j < |subtitles| && ratio(Lower(Normalize(textSnippet)), Lower(subtitles[j].text)) > Threshold
  {
    var snippet := Normalize(textSnippet);
    FirstExactMatch(subtitles, textSnippet, ratio);
    FuzzyThreshold(subtitles, snippet, ratio, true);
    var rows := ScoresOf(subtitles, snippet, ratio, true);
    assert forall j :: 0 <= j < |subtitles| ==> rows[j].score == ratio(Lower(snippet), Lower(subtitles[j].text));
  }

  /** Whatever the search returns is one of the entries. */
  lemma ResultIsEntry(subtitles: seq<Subtitle>, textSnippet: string, ratio: (string, string) -> real)
    ensures var r := Search(subtitles, textSnippet, ratio);
      r.Some? ==> exists j :: 0 <= j < |subtitles| && r.value == MatchOf(subtitles[j])
  {
    if !AllSpace(textSnippet) {
      FirstExactMatch(subtitles, textSnippet, ratio);
      FuzzyThreshold(subtitles, Normalize(textSnippet), ratio, true);
    }
  }

  /** Two strings with no character in common (after lowercasing). */
  predicate Disjoint(a: string, b: string) {
    forall i :: 0 <= i < |a| ==> a[i] !in b
  }

  /** A snippet sharing no character with any entry is not found, given the
      property of the similarity ratio that a non-empty string sharing no
      character with another scores zero against it. */
  lemma NothingInCommon(subtitles: seq<Subtitle>, textSnippet: string, ratio: (string, string) -> real)
    requires forall a, b :: a != [] && Disjoint(a, b) ==> ratio(a, b) == 0.0
    requires forall j :: 0 <= j < |subtitles| ==> Disjoint(Lower(Normalize(textSnippet)), Lower(subtitles[j].text))
    ensures Search(subtitles, textSnippet, ratio) == None
  {
    var snippet := Normalize(textSnippet);
    if snippet != [] {
      forall j | 0 <= j < |subtitles| ensures !Hit(subtitles[j], snippet, true) {
        NotContainsFirstChar(Lower(subtitles[j].text), Lower(snippet));
      }
      FuzzyAboveThreshold(subtitles, textSnippet, ratio);
    }
  }

  /** The own-text search needs normal text: an entry text with a run of two
      spaces between two words is normalised to one space as a query, which
      that text no longer contains, so the search falls to the fuzzy stage. */
  lemma DoubleSpaceNotExact(x: char, y: char, number: string, timestamp: string, ratio: (string, string) -> real)
    requires !IsSpace(x) && !IsSpace(y)
    ensures var subtitles := [Subtitle(number, timestamp, [x, ' ', ' ', y])];
      Search(subtitles, [x, ' ', ' ', y], ratio) == Fuzzy(subtitles, [x, ' ', y], ratio, true)
  {
    var subtitles := [Subtitle(number, timestamp, [x, ' ', ' ', y])];
    DoubleSpaceNormal(x, y);
    DoubleSpaceMissing(LowerChar(x), LowerChar(y));
    LowerSpaced(x, y);
    assert !Hit(subtitles[0], [x, ' ', y], true);
    FirstExactMatch(subtitles, [x, ' ', ' ', y], ratio);
  }

  lemma LowerSpaced(x: char, y: char)
    ensures Lower([x, ' ', ' ', y]) == [LowerChar(x), ' ', ' ', LowerChar(y)]
    ensures Lower([x, ' ', y]) == [LowerChar(x), ' ', LowerChar(y)]
  {
  }

  lemma DoubleSpaceNormal(x: char, y: char)
    requires !IsSpace(x) && !IsSpace(y)
    ensures Normalize([x, ' ', ' ', y]) == [x, ' ', y]
  {
    var s := [x, ' ', ' ', y];
    StripFixpoint(s);
    assert TokenLen(s[1..]) == 0;
    assert TokenLen(s) == 1;
    assert s[..1] == [x] && s[1..] == [' ', ' ', y];
    assert [' ', ' ', y][1..] == [' ', y] && [' ', y][1..] == [y];
    assert TokenLen([y][1..]) == 0;
    assert TokenLen([y]) == 1;
    assert [y][..1] == [y] && [y][1..] == [];
    assert Words([y]) == [[y]];
    assert Words([' ', y]) == Words([y]);
    assert Words([' ', ' ', y]) == Words([' ', y]);
    assert Words(s) == [s[..1]] + Words(s[1..]);
    assert Words(s) == [[x], [y]];
    assert [[x], [y]][1..] == [[y]];
    assert Join([[x], [y]], " ") == [x] + " " + [y];
  }

  lemma DoubleSpaceMissing(x: char, y: char)
    requires x != ' ' && y != ' '
    ensures !Contains([x, ' ', ' ', y], [x, ' ', y])
  {
    var s, pat := [x, ' ', ' ', y], [x, ' ', y];
    forall j | 0 <= j <= |s| ensures !(pat <= s[j..]) {
      var t := s[j..];
      if |t| >= 3 {
        if j == 0 {
          assert t[2] == ' ' != pat[2];
        } else {
          assert t[0] == s[1] == ' ' != pat[0];
        }
      }
    }
    NotContains(s, pat);
  }
}

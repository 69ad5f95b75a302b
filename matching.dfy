/** Pieces shared by both snippet matchers: the start half of a timecode line,
    the exact-containment scan, and the fuzzy fallback that ranks entries by a
    similarity score and keeps the best one only above a fixed threshold. */
module Matching {
  import opened Text
  import opened SrtParser

  /** A successful search: the entry's number, its start time, its full text. */
  datatype Match = Match(number: string, start: string, text: string)

  /** The separator between start and end time on a timecode line. */
  const TimeArrow: string := " --> "

  /** The fuzzy score must be strictly greater than this. */
  const Threshold: real := 0.3

  /** `timestamp.split(' --> ')[0]`: the text before the first arrow, or the
      whole line when there is no arrow. */
  function StartTime(timestamp: string): (start: string)
    ensures start <= timestamp && !Contains(start, TimeArrow)
    ensures Contains(timestamp, TimeArrow) ==> TimeArrow <= timestamp[|start|..]
    ensures !Contains(timestamp, TimeArrow) ==> start == timestamp
    ensures forall j :: 0 <= j < |start| ==> !(TimeArrow <= timestamp[j..])
  {
    var parts := Split(timestamp, TimeArrow);
    StartIsFirstPart(timestamp);
    parts[0]
  }

  lemma StartIsFirstPart(timestamp: string)
    ensures var start := Split(timestamp, TimeArrow)[0];
      start <= timestamp
      && (Contains(timestamp, TimeArrow) ==> TimeArrow <= timestamp[|start|..])
      && (!Contains(timestamp, TimeArrow) ==> start == timestamp)
      && (forall j :: 0 <= j < |start| ==> !(TimeArrow <= timestamp[j..]))
  {
    match Find(timestamp, TimeArrow)
    case None =>
      forall j | 0 <= j < |timestamp| ensures !(TimeArrow <= timestamp[j..]) {
        NotContainsAt(timestamp, TimeArrow, j);
      }
    case Some(i) =>
      assert Split(timestamp, TimeArrow)[0] == timestamp[..i];
  }

  /** On a line `a --> b` whose start `a` holds no space, the start time is `a`,
      never any part of the end time. */
  lemma StartOfRange(a: string, b: string)
    requires ' ' !in a
    ensures StartTime(a + TimeArrow + b) == a
  {
    var t := a + TimeArrow[..|TimeArrow| - 1];
    forall p | 0 <= p <= |t| ensures !(TimeArrow <= t[p..]) {
      if p + |TimeArrow| <= |t| {
        assert t[p..][0] == a[p];
      }
    }
    NotContains(t, TimeArrow);
    SplitAfterPart(a, TimeArrow, b);
  }

  /** A standard SRT timecode line yields its start timecode. */
  lemma StandardTimecode()
    ensures StartTime("00:00:01,000 --> 00:00:02,000") == "00:00:01,000"
  {
    assert "00:00:01,000 --> 00:00:02,000" == "00:00:01,000" + TimeArrow + "00:00:02,000";
    StartOfRange("00:00:01,000", "00:00:02,000");
  }

  /** The triple returned for an entry. */
  function MatchOf(e: Subtitle): Match {
    Match(e.number, StartTime(e.timestamp), e.text)
  }

  /** The strings compared: lowercased when the matcher ignores case. */
  function Key(s: string, fold: bool): string {
    if fold then Lower(s) else s
  }

  /** The entry's text contains the snippet (both lowercased when `fold`). */
  predicate Hit(e: Subtitle, snippet: string, fold: bool) {
    Contains(Key(e.text, fold), Key(snippet, fold))
  }

  /** Index of the first entry whose text contains the snippet. */
  function FirstHit(subtitles: seq<Subtitle>, snippet: string, fold: bool): (r: Option<nat>)
    ensures r.Some? ==> r.value < |subtitles| && Hit(subtitles[r.value], snippet, fold)
    ensures r.Some? ==> forall j :: 0 <= j < r.value ==> !Hit(subtitles[j], snippet, fold)
    ensures r.None? <==> forall j :: 0 <= j < |subtitles| ==> !Hit(subtitles[j], snippet, fold)
  {
    FirstWhere(subtitles, e => Hit(e, snippet, fold))
  }

  /** Index of the first entry satisfying `p`. */
  function FirstWhere(subtitles: seq<Subtitle>, p: Subtitle -> bool): (r: Option<nat>)
    ensures r.Some? ==> r.value < |subtitles| && p(subtitles[r.value])
    ensures r.Some? ==> forall j :: 0 <= j < r.value ==> !p(subtitles[j])
    ensures r.None? <==> forall j :: 0 <= j < |subtitles| ==> !p(subtitles[j])
    decreases |subtitles|
  {
    if subtitles == [] then None
    else if p(subtitles[0]) then Some(0)
    else
      match FirstWhere(subtitles[1..], p)
      case None =>
        assert forall j :: 1 <= j < |subtitles| ==> subtitles[j] == subtitles[1..][j - 1];
        None
      case Some(i) =>
        assert forall j :: 1 <= j <= i ==> subtitles[j] == subtitles[1..][j - 1];
        Some(i + 1)
  }

  /** Pinning down the first hit by its defining properties. */
  lemma FirstHitIs(subtitles: seq<Subtitle>, snippet: string, fold: bool, k: nat)
    requires k < |subtitles| && Hit(subtitles[k], snippet, fold)
    requires forall j :: 0 <= j < k ==> !Hit(subtitles[j], snippet, fold)
    ensures FirstHit(subtitles, snippet, fold) == Some(k)
  {
  }

  /** One more entry: the first hit stays where it was, or is the new entry
      when there was none before. */
  lemma FirstHitSnoc(subtitles: seq<Subtitle>, snippet: string, fold: bool)
    requires subtitles != []
    ensures var n := |subtitles| - 1;
      FirstHit(subtitles, snippet, fold) ==
        if FirstHit(subtitles[..n], snippet, fold).Some? then FirstHit(subtitles[..n], snippet, fold)
        else if Hit(subtitles[n], snippet, fold) then Some(n)
        else None
  {
    FirstWhereSnoc(subtitles, e => Hit(e, snippet, fold));
  }

  lemma FirstWhereSnoc(subtitles: seq<Subtitle>, p: Subtitle -> bool)
    requires subtitles != []
    ensures var n := |subtitles| - 1;
      FirstWhere(subtitles, p) ==
        if FirstWhere(subtitles[..n], p).Some? then FirstWhere(subtitles[..n], p)
        else if p(subtitles[n]) then Some(n)
        else None
  {
    var n := |subtitles| - 1;
    var init := subtitles[..n];
    match FirstWhere(init, p)
    case Some(k) =>
      forall j | 0 <= j < k ensures !p(subtitles[j]) {
        assert init[j] == subtitles[j];
      }
      assert init[k] == subtitles[k];
      FirstWhereIs(subtitles, p, k);
    case None =>
      forall j | 0 <= j < n ensures !p(subtitles[j]) {
        assert init[j] == subtitles[j];
      }
      if p(subtitles[n]) {
        FirstWhereIs(subtitles, p, n);
      }
  }

  lemma FirstWhereIs(subtitles: seq<Subtitle>, p: Subtitle -> bool, k: nat)
    requires k < |subtitles| && p(subtitles[k])
    requires forall j :: 0 <= j < k ==> !p(subtitles[j])
    ensures FirstWhere(subtitles, p) == Some(k)
  {
  }

  /** Python's `str` ordering: code point by code point, a proper prefix first. */
  predicate StrLess(a: string, b: string)
    decreases |a|
  {
    b != [] && (a == [] || a[0] < b[0] || (a[0] == b[0] && StrLess(a[1..], b[1..])))
  }

  lemma {:induction false} StrLessIrreflexive(a: string)
    ensures !StrLess(a, a)
    decreases |a|
  {
    if a != [] {
      StrLessIrreflexive(a[1..]);
    }
  }

  lemma {:induction false} StrLessTransitive(a: string, b: string, c: string)
    requires StrLess(a, b) && StrLess(b, c)
    ensures StrLess(a, c)
    decreases |a|
  {
    if a != [] && a[0] == b[0] && b[0] == c[0] {
      StrLessTransitive(a[1..], b[1..], c[1..]);
    }
  }

  lemma {:induction false} StrLessTotal(a: string, b: string)
    requires a != b
    ensures StrLess(a, b) || StrLess(b, a)
    decreases |a|
  {
    if a != [] && b != [] && a[0] == b[0] {
      assert a == [a[0]] + a[1..] && b == [b[0]] + b[1..];
      StrLessTotal(a[1..], b[1..]);
    }
  }

  /** A row of the score table: `(score, number, timestamp, text)`. */
  datatype Scored = Scored(score: real, number: string, timestamp: string, text: string)

  /** Python's tuple ordering on score rows: by score, then number, then
      timestamp, then text. */
  predicate ScoredLess(x: Scored, y: Scored) {
    x.score < y.score
    || (x.score == y.score
        && (StrLess(x.number, y.number)
            || (x.number == y.number
                && (StrLess(x.timestamp, y.timestamp)
                    || (x.timestamp == y.timestamp && StrLess(x.text, y.text))))))
  }

  lemma ScoredLessIrreflexive(x: Scored)
    ensures !ScoredLess(x, x)
  {
    StrLessIrreflexive(x.number);
    StrLessIrreflexive(x.timestamp);
    StrLessIrreflexive(x.text);
  }

  lemma ScoredLessTransitive(x: Scored, y: Scored, z: Scored)
    requires ScoredLess(x, y) && ScoredLess(y, z)
    ensures ScoredLess(x, z)
  {
    if x.score == y.score == z.score {
      if StrLess(x.number, y.number) && StrLess(y.number, z.number) {
        StrLessTransitive(x.number, y.number, z.number);
      } else if x.number == y.number == z.number {
        if StrLess(x.timestamp, y.timestamp) && StrLess(y.timestamp, z.timestamp) {
          StrLessTransitive(x.timestamp, y.timestamp, z.timestamp);
        } else if x.timestamp == y.timestamp == z.timestamp {
          StrLessTransitive(x.text, y.text, z.text);
        }
      }
    }
  }

  lemma ScoredLessTotal(x: Scored, y: Scored)
    requires x != y
    ensures ScoredLess(x, y) || ScoredLess(y, x)
  {
    if x.score == y.score {
      if x.number != y.number {
        StrLessTotal(x.number, y.number);
      } else if x.timestamp != y.timestamp {
        StrLessTotal(x.timestamp, y.timestamp);
      } else {
        StrLessTotal(x.text, y.text);
      }
    }
  }

  lemma ScoredLessAsymmetric(x: Scored, y: Scored)
    requires ScoredLess(x, y)
    ensures !ScoredLess(y, x)
  {
    if ScoredLess(y, x) {
      ScoredLessTransitive(x, y, x);
      ScoredLessIrreflexive(x);
    }
  }

  /** The greatest row under the tuple ordering. */
  function MaxScored(rows: seq<Scored>): (best: Scored)
    requires rows != []
    ensures best in rows
    ensures forall k :: 0 <= k < |rows| ==> !ScoredLess(best, rows[k])
    decreases |rows|
  {
    if |rows| == 1 then ScoredLessIrreflexive(rows[0]); rows[0]
    else
      var n := |rows| - 1;
      var m := MaxScored(rows[..n]);
      if ScoredLess(m, rows[n]) then
        MaxMoves(rows[..n], m, rows[n]);
        ScoredLessIrreflexive(rows[n]);
        assert rows == rows[..n] + [rows[n]];
        rows[n]
      else
        assert rows == rows[..n] + [rows[n]];
        m
  }

  lemma MaxMoves(rows: seq<Scored>, m: Scored, x: Scored)
    requires forall k :: 0 <= k < |rows| ==> !ScoredLess(m, rows[k])
    requires ScoredLess(m, x)
    ensures forall k :: 0 <= k < |rows| ==> !ScoredLess(x, rows[k])
  {
    forall k | 0 <= k < |rows| ensures !ScoredLess(x, rows[k]) {
      if rows[k] != m {
        ScoredLessTotal(m, rows[k]);
        ScoredLessTransitive(rows[k], m, x);
        ScoredLessAsymmetric(rows[k], x);
      } else {
        ScoredLessAsymmetric(m, x);
      }
    }
  }

  /** Sorted from greatest to least, as `sort(reverse=True)` leaves a list. */
  predicate Descending(rows: seq<Scored>) {
    forall i, j :: 0 <= i < j < |rows| ==> !ScoredLess(rows[i], rows[j])
  }

  /** Whatever order the sort leaves, its first row is the greatest row:
      reading `scores[0]` after the descending sort is taking the maximum. */
  lemma SortedHeadIsMax(rows: seq<Scored>, sorted: seq<Scored>)
    requires rows != [] && multiset(sorted) == multiset(rows) && Descending(sorted)
    ensures sorted[0] == MaxScored(rows)
  {
    var m := MaxScored(rows);
    assert m in multiset(sorted);
    var j :| 0 <= j < |sorted| && sorted[j] == m;
    assert sorted[0] in multiset(rows);
    var i :| 0 <= i < |rows| && rows[i] == sorted[0];
    if j == 0 {
      ScoredLessIrreflexive(m);
    }
    ScoredEquivalent(sorted[0], m);
  }

  /** Two rows neither of which precedes the other are the same row. */
  lemma ScoredEquivalent(x: Scored, y: Scored)
    requires !ScoredLess(x, y) && !ScoredLess(y, x)
    ensures x == y
  {
    if x != y {
      ScoredLessTotal(x, y);
    }
  }

  /** The greatest row, found by one scan of the table. */
  method BestOf(rows: seq<Scored>) returns (best: Scored)
    requires rows != []
    ensures best == MaxScored(rows)
  {
    best := rows[0];
    for i := 1 to |rows|
      invariant best == MaxScored(rows[..i])
    {
      assert rows[..i + 1][..i] == rows[..i];
      if ScoredLess(best, rows[i]) {
        best := rows[i];
      }
    }
    assert rows[..|rows|] == rows;
  }

  /** The score row of one entry. */
  function ScoreOf(e: Subtitle, snippet: string, ratio: (string, string) -> real, fold: bool): Scored {
    Scored(ratio(Key(snippet, fold), Key(e.text, fold)), e.number, e.timestamp, e.text)
  }

  /** The score table: one row per entry, in entry order. */
  function ScoresOf(subtitles: seq<Subtitle>, snippet: string, ratio: (string, string) -> real, fold: bool): (rows: seq<Scored>)
    ensures |rows| == |subtitles|
    ensures forall k :: 0 <= k < |rows| ==> rows[k] == ScoreOf(subtitles[k], snippet, ratio, fold)
  {
    seq(|subtitles|, k requires 0 <= k < |subtitles| => ScoreOf(subtitles[k], snippet, ratio, fold))
  }

  /** The scoring loop. */
  method ScoreEntries(subtitles: seq<Subtitle>, snippet: string, ratio: (string, string) -> real, fold: bool)
    returns (rows: seq<Scored>)
    ensures rows == ScoresOf(subtitles, snippet, ratio, fold)
  {
    rows := [];
    for i := 0 to |subtitles|
      invariant |rows| == i
      invariant forall k :: 0 <= k < i ==> rows[k] == ScoreOf(subtitles[k], snippet, ratio, fold)
    {
      var e := subtitles[i];
      rows := rows + [Scored(ratio(Key(snippet, fold), Key(e.text, fold)), e.number, e.timestamp, e.text)];
    }
  }

  /** The fuzzy fallback: the best row, if its score is above the threshold. */
  function Fuzzy(subtitles: seq<Subtitle>, snippet: string, ratio: (string, string) -> real, fold: bool): Option<Match> {
    if subtitles == [] then None
    else
      var best := MaxScored(ScoresOf(subtitles, snippet, ratio, fold));
      if best.score > Threshold then Some(Match(best.number, StartTime(best.timestamp), best.text)) else None
  }

  /** The fuzzy fallback, as the matchers run it: score every entry, take the
      head of the descending order, and accept it above the threshold. */
  method FuzzyMatch(subtitles: seq<Subtitle>, snippet: string, ratio: (string, string) -> real, fold: bool)
    returns (result: Option<Match>)
    ensures result == Fuzzy(subtitles, snippet, ratio, fold)
  {
    var rows := ScoreEntries(subtitles, snippet, ratio, fold);
    if rows != [] {
      var best := BestOf(rows);
      if best.score > Threshold {
        return Some(Match(best.number, StartTime(best.timestamp), best.text));
      }
    }
    return None;
  }

  /** The fallback finds something exactly when some entry scores above the
      threshold; what it finds is an entry with the greatest score. */
  lemma FuzzyThreshold(subtitles: seq<Subtitle>, snippet: string, ratio: (string, string) -> real, fold: bool)
    ensures var rows := ScoresOf(subtitles, snippet, ratio, fold);
      Fuzzy(subtitles, snippet, ratio, fold).Some? <==> exists k :: 0 <= k < |rows| && rows[k].score > Threshold
    ensures var r := Fuzzy(subtitles, snippet, ratio, fold);
      r.Some? ==> exists k :: (0 <= k < |subtitles| && r.value == MatchOf(subtitles[k])
        && ScoreOf(subtitles[k], snippet, ratio, fold).score > Threshold
        && forall j :: 0 <= j < |subtitles| ==> ScoreOf(subtitles[j], snippet, ratio, fold).score <= ScoreOf(subtitles[k], snippet, ratio, fold).score)
  {
    var rows := ScoresOf(subtitles, snippet, ratio, fold);
    if subtitles != [] {
      var best := MaxScored(rows);
      var k :| 0 <= k < |rows| && rows[k] == best;
      assert MatchOf(subtitles[k]) == Match(best.number, StartTime(best.timestamp), best.text);
      forall j | 0 <= j < |rows| ensures rows[j].score <= best.score {
        assert !ScoredLess(best, rows[j]);
      }
    }
  }

  /** The texts of all entries, as the generator over the entries yields them. */
  function Texts(subtitles: seq<Subtitle>): (texts: seq<string>)
    ensures |texts| == |subtitles|
    ensures forall k :: 0 <= k < |subtitles| ==> texts[k] == subtitles[k].text
  {
    seq(|subtitles|, k requires 0 <= k < |subtitles| => subtitles[k].text)
  }
}

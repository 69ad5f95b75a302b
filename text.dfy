/** Python `str` operations used by the subtitle tools, over `seq<char>`:
    `isspace`, `strip`/`lstrip`/`rstrip`, `split(sep)`, `sep.join`, `in`,
    `lower` (ASCII letters only) and the argument-less `split()`. */
module Text {

  datatype Option<T> = None | Some(value: T)

  /** Python's `str.isspace` for one character. */
  predicate IsSpace(c: char) {
    ('\t' <= c <= '\r') || ('\U{1C}' <= c <= '\U{1F}') || c == ' '
    || c == '\U{85}' || c == '\U{A0}' || c == '\U{1680}'
    || ('\U{2000}' <= c <= '\U{200A}') || c == '\U{2028}' || c == '\U{2029}'
    || c == '\U{202F}' || c == '\U{205F}' || c == '\U{3000}'
  }

  predicate AllSpace(s: string) {
    forall i :: 0 <= i < |s| ==> IsSpace(s[i])
  }

  /** No whitespace at either end: what `strip()` leaves behind. */
  predicate Trimmed(s: string) {
    s == [] || (!IsSpace(s[0]) && !IsSpace(s[|s| - 1]))
  }

  /** How many whitespace characters `s` starts with. */
  function LeadingSpace(s: string): (n: nat)
    ensures n <= |s| && AllSpace(s[..n])
    ensures n < |s| ==> !IsSpace(s[n])
    decreases |s|
  {
    if s != [] && IsSpace(s[0]) then
      var m := LeadingSpace(s[1..]);
      var head, tail := s[..m + 1], s[1..][..m];
      forall k | 1 <= k < |head| ensures IsSpace(head[k]) {
        assert head[k] == tail[k - 1];
      }
      m + 1
    else 0
  }

  /** Where the whitespace that `s` ends with begins. */
  function TrailingSpace(s: string): (n: nat)
    ensures n <= |s| && AllSpace(s[n..])
    ensures n > 0 ==> !IsSpace(s[n - 1])
    decreases |s|
  {
    if s != [] && IsSpace(s[|s| - 1]) then
      var m := TrailingSpace(s[..|s| - 1]);
      var ends, init := s[m..], s[..|s| - 1][m..];
      forall k | 0 <= k < |init| ensures IsSpace(ends[k]) {
        assert ends[k] == init[k];
      }
      m
    else |s|
  }

  /** `s.lstrip()` */
  function LStrip(s: string): (r: string)
    ensures r == [] || !IsSpace(r[0])
  {
    s[LeadingSpace(s)..]
  }

  /** `s.rstrip()` */
  function RStrip(s: string): (r: string)
    ensures r == [] || !IsSpace(r[|r| - 1])
  {
    s[..TrailingSpace(s)]
  }

  /** `s.strip()`: the slice s[i..j] left after removing whitespace at both ends. */
  function Strip(s: string): (r: string)
    ensures Trimmed(r)
    ensures r == [] <==> AllSpace(s)
  {
    StripEnds(s);
    RStrip(LStrip(s))
  }

  lemma StripEnds(s: string)
    ensures Trimmed(RStrip(LStrip(s)))
    ensures RStrip(LStrip(s)) == [] <==> AllSpace(s)
  {
    var i, j := StripIsSlice(s);
    if RStrip(LStrip(s)) == [] {
      forall k | 0 <= k < |s| ensures IsSpace(s[k]) {
        if k < i { assert s[k] == s[..i][k]; } else { assert s[k] == s[j..][k - j]; }
      }
    }
  }

  lemma StripIsSlice(s: string) returns (i: nat, j: nat)
    ensures i <= j <= |s| && RStrip(LStrip(s)) == s[i..j]
    ensures AllSpace(s[..i]) && AllSpace(s[j..])
    ensures RStrip(LStrip(s)) == [] ==> i == j
    ensures RStrip(LStrip(s)) != [] ==> !IsSpace(s[i]) && !IsSpace(s[j - 1])
  {
    i := LeadingSpace(s);
    var l := s[i..];
    var m := TrailingSpace(l);
    j := i + m;
    assert l[..m] == s[i..j];
    assert forall k :: 0 <= k < |s| - j ==> s[j..][k] == l[m..][k];
  }

  /** Stripping changes nothing exactly when there is no whitespace at the ends. */
  lemma StripFixpoint(s: string)
    ensures Strip(s) == s <==> Trimmed(s)
  {
    if Trimmed(s) && s != [] {
      assert LStrip(s) == s;
      assert RStrip(s) == s;
    }
  }

  /** Whatever character the stripped string holds, the original held too. */
  lemma StripKeepsAbsence(s: string, c: char)
    requires c !in s
    ensures c !in Strip(s)
  {
    var i, j := StripIsSlice(s);
  }

  /** Python's `pat in s`: `pat` starts at some position of `s`. */
  predicate Contains(s: string, pat: string)
    decreases |s|
  {
    pat <= s || (s != [] && Contains(s[1..], pat))
  }

  /** An occurrence at index `j` makes `pat in s` true. */
  lemma {:induction false} ContainsAt(s: string, pat: string, j: nat)
    requires j <= |s| && pat <= s[j..]
    ensures Contains(s, pat)
    decreases j
  {
    if j > 0 {
      assert s[1..][j - 1..] == s[j..];
      ContainsAt(s[1..], pat, j - 1);
    }
  }

  /** If `pat in s` is false, `pat` starts at no index of `s`. */
  lemma {:induction false} NotContainsAt(s: string, pat: string, j: nat)
    requires j <= |s| && !Contains(s, pat)
    ensures !(pat <= s[j..])
    decreases j
  {
    if j > 0 {
      assert s[1..][j - 1..] == s[j..];
      NotContainsAt(s[1..], pat, j - 1);
    }
  }

  /** `pat in s` is false when `pat` starts at no index of `s`. */
  lemma {:induction false} NotContains(s: string, pat: string)
    requires forall j :: 0 <= j <= |s| ==> !(pat <= s[j..])
    ensures !Contains(s, pat)
    decreases |s|
  {
    assert s[0..] == s;
    if s != [] {
      assert forall j :: 0 <= j <= |s| - 1 ==> s[1..][j..] == s[j + 1..];
      NotContains(s[1..], pat);
    }
  }

  /** An index at which `pat` starts, when `pat in s`. */
  lemma {:induction false} ContainsWitness(s: string, pat: string) returns (j: nat)
    requires Contains(s, pat)
    ensures j <= |s| && pat <= s[j..]
    decreases |s|
  {
    if pat <= s {
      j := 0;
    } else {
      var i := ContainsWitness(s[1..], pat);
      j := i + 1;
      assert s[1..][i..] == s[j..];
    }
  }

  /** Index of the first occurrence of `pat` in `s`, as `s.find(pat)` (None for -1). */
  function Find(s: string, pat: string): (r: Option<nat>)
    ensures r.Some? ==> r.value + |pat| <= |s| && pat <= s[r.value..]
    ensures r.Some? ==> forall j :: 0 <= j < r.value ==> !(pat <= s[j..])
    ensures r.Some? <==> Contains(s, pat)
    decreases |s|
  {
    if pat <= s then Some(0)
    else if s == [] then None
    else
      match Find(s[1..], pat)
      case None =>
        assert forall j :: 1 <= j <= |s| ==> s[j..] == s[1..][j - 1..];
        None
      case Some(i) =>
        assert forall j :: 1 <= j <= i + 1 ==> s[j..] == s[1..][j - 1..];
        Some(i + 1)
  }

  /** The first occurrence is the only position satisfying both halves of Find's contract. */
  lemma FindAt(s: string, pat: string, i: nat)
    requires i <= |s| && pat <= s[i..]
    requires forall j :: 0 <= j < i ==> !(pat <= s[j..])
    ensures Find(s, pat) == Some(i)
  {
    ContainsAt(s, pat, i);
  }

  /** A one-character pattern occurs exactly when the character does. */
  lemma ContainsChar(s: string, c: char)
    ensures Contains(s, [c]) <==> c in s
  {
    if c in s {
      var k :| 0 <= k < |s| && s[k] == c;
      ContainsAt(s, [c], k);
    }
    if Contains(s, [c]) {
      var k := ContainsWitness(s, [c]);
      assert s[k] == c;
    }
  }

  /** Python's `sep.join(parts)`. */
  function Join(parts: seq<string>, sep: string): string
    decreases |parts|
  {
    if |parts| == 0 then ""
    else if |parts| == 1 then parts[0]
    else parts[0] + sep + Join(parts[1..], sep)
  }

  /** Python's `s.split(sep)` for a non-empty separator: the pieces between the
      non-overlapping occurrences of `sep`, scanned from the left. */
  function Split(s: string, sep: string): (parts: seq<string>)
    requires sep != []
    ensures |parts| >= 1
    ensures Join(parts, sep) == s
    ensures forall k :: 0 <= k < |parts| ==> !Contains(parts[k], sep)
    ensures forall k :: 0 <= k < |parts| - 1 ==> NoSplitInside(parts[k], sep)
    decreases |s|
  {
    match Find(s, sep)
    case None => [s]
    case Some(i) =>
      var rest := Split(s[i + |sep|..], sep);
      SplitStep(s, sep, i, rest);
      [s[..i]] + rest
  }

  /** The text before the first `sep`, followed by the pieces of the text after it. */
  lemma SplitStep(s: string, sep: string, i: nat, rest: seq<string>)
    requires sep != [] && i + |sep| <= |s| && sep <= s[i..]
    requires forall j :: 0 <= j < i ==> !(sep <= s[j..])
    requires |rest| >= 1 && Join(rest, sep) == s[i + |sep|..]
    requires forall k :: 0 <= k < |rest| ==> !Contains(rest[k], sep)
    requires forall k :: 0 <= k < |rest| - 1 ==> NoSplitInside(rest[k], sep)
    ensures Join([s[..i]] + rest, sep) == s
    ensures forall k :: 0 <= k < |rest| + 1 ==> !Contains(([s[..i]] + rest)[k], sep)
    ensures forall k :: 0 <= k < |rest| ==> NoSplitInside(([s[..i]] + rest)[k], sep)
  {
    JoinAround(s, sep, i, rest);
    PrefixBeforeFirst(s, sep, i);
    ConsEach(s[..i], rest, p => !Contains(p, sep));
    FirstPartNoSplit(s, sep, i);
    ConsAllButLast(s[..i], rest, p => NoSplitInside(p, sep));
  }

  /** Putting `sep` back between the text before it and the text after it. */
  lemma JoinAround(s: string, sep: string, i: nat, rest: seq<string>)
    requires i + |sep| <= |s| && sep <= s[i..]
    requires |rest| >= 1 && Join(rest, sep) == s[i + |sep|..]
    ensures Join([s[..i]] + rest, sep) == s
  {
    calc {
      Join([s[..i]] + rest, sep);
      { JoinCons(s[..i], rest, sep); }
      s[..i] + sep + s[i + |sep|..];
      { assert sep == s[i..i + |sep|]; }
      s[..i] + s[i..i + |sep|] + s[i + |sep|..];
      { Reassemble(s, i, i + |sep|); }
      s;
    }
  }

  lemma Reassemble(s: string, i: nat, j: nat)
    requires i <= j <= |s|
    ensures s[..i] + s[i..j] + s[j..] == s
  {
  }

  lemma Assoc<T>(x: seq<T>, y: seq<T>, z: seq<T>)
    ensures x + y + z == x + (y + z)
  {
  }

  lemma SliceAppend(a: string, c: string, n: nat)
    requires n <= |a|
    ensures (a + c)[..n] == a[..n] && (a + c)[n..] == a[n..] + c
  {
  }

  lemma ConsEach(x: string, xs: seq<string>, p: string -> bool)
    requires p(x) && forall k :: 0 <= k < |xs| ==> p(xs[k])
    ensures forall k :: 0 <= k < |xs| + 1 ==> p(([x] + xs)[k])
  {
    forall k | 0 <= k < |xs| + 1 ensures p(([x] + xs)[k]) {
      if k > 0 {
        assert ([x] + xs)[k] == xs[k - 1];
      }
    }
  }

  lemma ConsAllButLast(x: string, xs: seq<string>, p: string -> bool)
    requires p(x) && forall k :: 0 <= k < |xs| - 1 ==> p(xs[k])
    ensures forall k :: 0 <= k < |xs| ==> p(([x] + xs)[k])
  {
    forall k | 0 <= k < |xs| ensures p(([x] + xs)[k]) {
      if k > 0 {
        assert ([x] + xs)[k] == xs[k - 1];
      }
    }
  }

  /** The cut is leftmost: no occurrence of `sep` starts inside the text before
      the first one, not even one running into that first occurrence. */
  lemma FirstPartNoSplit(s: string, sep: string, i: nat)
    requires sep != [] && i + |sep| <= |s| && sep <= s[i..]
    requires forall j :: 0 <= j < i ==> !(sep <= s[j..])
    ensures NoSplitInside(s[..i], sep)
  {
    var t := s[..i] + sep[..|sep| - 1];
    assert t == s[..|t|] by {
      assert s[i..][..|sep| - 1] == sep[..|sep| - 1];
    }
    forall j | 0 <= j <= |t| ensures !(sep <= t[j..]) {
      if j + |sep| <= |t| {
        SamePrefixAt(s, t, j, sep);
      }
    }
    NotContains(t, sep);
  }

  /** The text before the first occurrence of `pat` does not contain `pat`. */
  lemma PrefixBeforeFirst(s: string, pat: string, i: nat)
    requires pat != [] && i <= |s|
    requires forall j :: 0 <= j < i ==> !(pat <= s[j..])
    ensures !Contains(s[..i], pat)
  {
    forall j | 0 <= j <= i ensures !(pat <= s[..i][j..]) {
      if j + |pat| <= i {
        assert s[..i][j..][..|pat|] == s[j..][..|pat|];
      }
    }
    NotContains(s[..i], pat);
  }

  /** No occurrence of `sep` starts inside `p`, even one running into a following `sep`. */
  predicate NoSplitInside(p: string, sep: string)
    requires sep != []
  {
    !Contains(p + sep[..|sep| - 1], sep)
  }

  /** Splitting undoes joining, when no occurrence of `sep` can start inside a part
      (not even one that runs into the separator that follows it). */
  lemma {:induction false} SplitJoin(parts: seq<string>, sep: string)
    requires sep != [] && |parts| >= 1
    requires forall k :: 0 <= k < |parts| - 1 ==> NoSplitInside(parts[k], sep)
    requires !Contains(parts[|parts| - 1], sep)
    ensures Split(Join(parts, sep), sep) == parts
    decreases |parts|
  {
    if |parts| == 1 {
      assert Join(parts, sep) == parts[0];
    } else {
      var tail := parts[1..];
      forall k | 0 <= k < |tail| - 1 ensures NoSplitInside(tail[k], sep) {
        assert tail[k] == parts[k + 1];
      }
      assert tail[|tail| - 1] == parts[|parts| - 1];
      SplitJoin(tail, sep);
      SplitAfterPart(parts[0], sep, Join(tail, sep));
      assert Join(parts, sep) == parts[0] + sep + Join(tail, sep);
      assert parts == [parts[0]] + tail;
    }
  }

  lemma SplitAfterPart(p: string, sep: string, rest: string)
    requires sep != [] && NoSplitInside(p, sep)
    ensures Split(p + sep + rest, sep) == [p] + Split(rest, sep)
  {
    var s := p + sep + rest;
    FindAfterPart(p, sep, rest);
    assert s[..|p|] == p;
    assert s[|p| + |sep|..] == rest;
  }

  lemma FindAfterPart(p: string, sep: string, rest: string)
    requires sep != [] && NoSplitInside(p, sep)
    ensures Find(p + sep + rest, sep) == Some(|p|)
  {
    var s := p + sep + rest;
    assert s[|p|..] == sep + rest;
    var t := p + sep[..|sep| - 1];
    assert t == s[..|t|];
    forall j | 0 <= j < |p| ensures !(sep <= s[j..]) {
      NotContainsAt(t, sep, j);
      SamePrefixAt(s, t, j, sep);
    }
    FindAt(s, sep, |p|);
  }

  /** Whether `pat` starts at `j` depends only on the characters up to `j + |pat|`. */
  lemma SamePrefixAt(s: string, t: string, j: nat, pat: string)
    requires |t| <= |s| && t == s[..|t|] && j + |pat| <= |t|
    ensures pat <= s[j..] <==> pat <= t[j..]
  {
    var a, b := s[j..][..|pat|], t[j..][..|pat|];
    forall k | 0 <= k < |pat| ensures a[k] == b[k] {
      assert a[k] == s[j + k] && b[k] == t[j + k];
    }
    assert a == b;
  }

  /** Every part is a substring of the joined text. */
  lemma {:induction false} JoinContainsPart(parts: seq<string>, sep: string, k: nat, pat: string)
    requires k < |parts| && Contains(parts[k], pat)
    ensures Contains(Join(parts, sep), pat)
    decreases |parts|
  {
    if |parts| == 1 {
    } else if k == 0 {
      var j := ContainsWitness(parts[0], pat);
      var s := Join(parts, sep);
      assert s == parts[0] + (sep + Join(parts[1..], sep));
      assert s[j..][..|pat|] == parts[0][j..][..|pat|];
      ContainsAt(s, pat, j);
    } else {
      JoinContainsPart(parts[1..], sep, k - 1, pat);
      var s := Join(parts, sep);
      var t := Join(parts[1..], sep);
      var i := ContainsWitness(t, pat);
      var off := |parts[0]| + |sep|;
      assert s == (parts[0] + sep) + t;
      assert s[off + i..] == t[i..];
      ContainsAt(s, pat, off + i);
    }
  }

  /** A pattern none of whose characters is a separator character cannot occur
      across a separator: if no part contains it, the join does not either. */
  lemma ContainsNone3(x: string, sep: string, y: string, pat: string)
    requires pat != [] && sep != []
    requires forall c :: c in sep ==> c !in pat
    requires !Contains(x, pat) && !Contains(y, pat)
    ensures !Contains(x + sep + y, pat)
  {
    var s := x + sep + y;
    forall p | 0 <= p <= |s| ensures !(pat <= s[p..]) {
      if p + |pat| <= |x| {
        assert x[p..][..|pat|] == s[p..][..|pat|];
        NotContainsAt(x, pat, p);
      } else if p < |x| {
        assert s[|x|] == sep[0] && sep[0] in sep;
      } else if p < |x| + |sep| {
        assert s[p] == sep[p - |x|] && sep[p - |x|] in sep;
      } else {
        assert s[p..] == y[p - |x| - |sep|..];
        NotContainsAt(y, pat, p - |x| - |sep|);
      }
    }
    NotContains(s, pat);
  }

  lemma {:induction false} JoinAvoids(parts: seq<string>, sep: string, pat: string)
    requires pat != [] && sep != []
    requires forall c :: c in sep ==> c !in pat
    requires forall k :: 0 <= k < |parts| ==> !Contains(parts[k], pat)
    ensures !Contains(Join(parts, sep), pat)
    decreases |parts|
  {
    if |parts| > 1 {
      JoinAvoids(parts[1..], sep, pat);
      ContainsNone3(parts[0], sep, Join(parts[1..], sep), pat);
    }
  }

  /** If a longer pattern occurs, so does each of its prefixes. */
  lemma ContainsPrefixOf(s: string, pat: string, more: string)
    requires Contains(s, pat + more)
    ensures Contains(s, pat)
  {
    var j := ContainsWitness(s, pat + more);
    ContainsAt(s, pat, j);
  }

  function Last<T>(s: seq<T>): T
    requires s != []
  {
    s[|s| - 1]
  }

  /** The elements of all groups, group after group. */
  function Concat<T>(gs: seq<seq<T>>): seq<T>
    decreases |gs|
  {
    if gs == [] then [] else Concat(gs[..|gs| - 1]) + gs[|gs| - 1]
  }

  lemma ConcatAppend<T>(gs: seq<seq<T>>, g: seq<T>)
    ensures Concat(gs + [g]) == Concat(gs) + g
  {
    assert (gs + [g])[..|gs|] == gs;
  }

  lemma ConcatExtendLast<T>(gs: seq<seq<T>>, line: T)
    requires gs != []
    ensures Concat(gs[..|gs| - 1] + [Last(gs) + [line]]) == Concat(gs) + [line]
  {
    ConcatAppend(gs[..|gs| - 1], Last(gs) + [line]);
  }

  /** Taking the last element off the last group of `gs` takes the last
      element off the concatenation. */
  lemma ConcatDropLastElement<T>(gs: seq<seq<T>>, xs: seq<T>)
    requires gs != [] && |Last(gs)| > 1 && Concat(gs) == xs
    ensures var g := Last(gs); var shorter := gs[..|gs| - 1] + [g[..|g| - 1]];
      xs != [] && xs[..|xs| - 1] == Concat(shorter) && Last(xs) == Last(g)
      && shorter != [] && shorter[..|shorter| - 1] + [Last(shorter) + [Last(xs)]] == gs
      && shorter[..|shorter| - 1] == gs[..|gs| - 1] && Last(shorter) == g[..|g| - 1]
  {
    var g := Last(gs);
    var init := gs[..|gs| - 1];
    var shorter := init + [g[..|g| - 1]];
    assert gs == init + [g];
    ConcatAppend(init, g);
    ConcatAppend(init, g[..|g| - 1]);
    assert shorter[..|shorter| - 1] == init;
    assert Last(shorter) + [Last(g)] == g;
  }

  /** Taking off a last group of one element takes the last element off the
      concatenation. */
  lemma ConcatDropSingleton<T>(gs: seq<seq<T>>, xs: seq<T>)
    requires gs != [] && |Last(gs)| == 1 && Concat(gs) == xs
    ensures xs != [] && xs[..|xs| - 1] == Concat(gs[..|gs| - 1]) && Last(gs) == [Last(xs)]
    ensures gs == gs[..|gs| - 1] + [[Last(xs)]]
  {
    var init, g := gs[..|gs| - 1], Last(gs);
    assert xs == Concat(init) + g;
    assert g == [g[0]];
    assert xs[..|xs| - 1] == Concat(init);
    assert gs == init + [g];
  }

  /** Every element of every group occurs in the concatenation. */
  lemma {:induction false} InConcat<T>(gs: seq<seq<T>>, k: nat, j: nat)
    requires k < |gs| && j < |gs[k]|
    ensures gs[k][j] in Concat(gs)
    decreases |gs|
  {
    if k < |gs| - 1 {
      InConcat(gs[..|gs| - 1], k, j);
    }
  }

  /** Each group of strings joined with `sep`, as `[sep.join(g) for g in gs]`. */
  function JoinEach(gs: seq<seq<string>>, sep: string): (r: seq<string>)
    ensures |r| == |gs|
    ensures forall k :: 0 <= k < |gs| ==> r[k] == Join(gs[k], sep)
  {
    seq(|gs|, k requires 0 <= k < |gs| => Join(gs[k], sep))
  }

  /** A pattern longer than the text cannot occur in it. */
  lemma NotContainsShorter(s: string, pat: string)
    requires |s| < |pat|
    ensures !Contains(s, pat)
  {
    NotContains(s, pat);
  }

  /** A pattern whose first character does not occur cannot occur. */
  lemma NotContainsFirstChar(s: string, pat: string)
    requires pat != [] && pat[0] !in s
    ensures !Contains(s, pat)
  {
    forall j | 0 <= j <= |s| ensures !(pat <= s[j..]) {
      if j < |s| {
        assert s[j..][0] == s[j];
      }
    }
    NotContains(s, pat);
  }

  lemma JoinEachSnoc(gs: seq<seq<string>>, sep: string)
    requires gs != []
    ensures JoinEach(gs, sep) == JoinEach(gs[..|gs| - 1], sep) + [Join(Last(gs), sep)]
  {
  }

  /** Python's `c.lower()` restricted to ASCII letters. */
  function LowerChar(c: char): char {
    if 'A' <= c <= 'Z' then (c as int + 32) as char else c
  }

  /** Python's `s.lower()` restricted to ASCII letters: no capital is left, each
      capital becomes its small letter, and every other character stays. */
  function Lower(s: string): (r: string)
    ensures |r| == |s|
    ensures forall i :: 0 <= i < |r| ==> !('A' <= r[i] <= 'Z')
    ensures forall i :: 0 <= i < |s| && 'A' <= s[i] <= 'Z' ==> r[i] as int == s[i] as int + 32
    ensures forall i :: 0 <= i < |s| && !('A' <= s[i] <= 'Z') ==> r[i] == s[i]
  {
    seq(|s|, i requires 0 <= i < |s| => LowerChar(s[i]))
  }

  /** Lowering twice is lowering once. */
  lemma LowerIdempotent(s: string)
    ensures Lower(Lower(s)) == Lower(s)
  {
    var r := Lower(s);
    assert forall i :: 0 <= i < |r| ==> Lower(r)[i] == r[i];
  }

  /** Length of the run of non-whitespace characters that starts `s`. */
  function TokenLen(s: string): (n: nat)
    ensures n <= |s|
    ensures forall i :: 0 <= i < n ==> !IsSpace(s[i])
    ensures n < |s| ==> IsSpace(s[n])
    decreases |s|
  {
    if s == [] || IsSpace(s[0]) then 0 else 1 + TokenLen(s[1..])
  }

  predicate IsWord(w: string) {
    w != [] && forall i :: 0 <= i < |w| ==> !IsSpace(w[i])
  }

  /** Python's argument-less `s.split()`: the maximal runs of non-whitespace. */
  function Words(s: string): (ws: seq<string>)
    ensures forall k :: 0 <= k < |ws| ==> IsWord(ws[k])
    ensures ws == [] <==> AllSpace(s)
    decreases |s|
  {
    if s == [] then []
    else if IsSpace(s[0]) then Words(s[1..])
    else
      var n := TokenLen(s);
      [s[..n]] + Words(s[n..])
  }

  /** Whitespace normalisation of a search snippet: `' '.join(s.strip().split())`. */
  function Normalize(s: string): (r: string)
    ensures r == [] <==> AllSpace(s)
    ensures Normal(r) && Trimmed(r)
    ensures Words(r) == Words(s)
  {
    var ws := Words(Strip(s));
    JoinWordsNormal(ws);
    WordsJoin(ws);
    StripWords(s);
    Join(ws, " ")
  }

  /** Leading whitespace contributes no word. */
  lemma {:induction false} WordsSpacePrefix(sp: string, b: string)
    requires AllSpace(sp)
    ensures Words(sp + b) == Words(b)
    decreases |sp|
  {
    if sp == [] {
      assert sp + b == b;
    } else {
      WordsSpacePrefix(sp[1..], b);
      SpacePrefixStep(sp, b);
    }
  }

  lemma SpacePrefixStep(sp: string, b: string)
    requires sp != [] && IsSpace(sp[0])
    ensures Words(sp + b) == Words(sp[1..] + b)
  {
    assert sp + b == [sp[0]] + (sp[1..] + b);
    SkipSpace(sp[0], sp[1..] + b);
  }

  /** One leading whitespace character contributes no word. */
  lemma SkipSpace(c: char, s: string)
    requires IsSpace(c)
    ensures Words([c] + s) == Words(s)
  {
    assert ([c] + s)[1..] == s;
  }

  /** A token that stops inside `a`, or right before a space, is not lengthened
      by what follows. */
  lemma {:induction false} TokenLenAppend(a: string, c: string)
    requires TokenLen(a) < |a| || (c != [] && IsSpace(c[0]))
    ensures TokenLen(a + c) == TokenLen(a)
    decreases |a|
  {
    if a != [] && !IsSpace(a[0]) {
      assert (a + c)[1..] == a[1..] + c;
      TokenLenAppend(a[1..], c);
    }
  }

  /** A run of whitespace separates the words on its left from those on its right:
      `(a + sp + b).split() == a.split() + b.split()`. */
  lemma {:induction false} WordsAppend(a: string, sp: string, b: string)
    requires sp != [] && AllSpace(sp)
    ensures Words(a + sp + b) == Words(a) + Words(b)
    decreases |a|
  {
    if a == [] {
      assert a + sp == sp;
      WordsSpacePrefix(sp, b);
    } else if IsSpace(a[0]) {
      WordsAppend(a[1..], sp, b);
      AppendAfterSpace(a, sp, b);
    } else {
      WordsAppend(a[TokenLen(a)..], sp, b);
      AppendAfterWord(a, sp, b);
    }
  }

  /** The inductive step of `WordsAppend` past a leading whitespace character of `a`. */
  lemma AppendAfterSpace(a: string, sp: string, b: string)
    requires a != [] && IsSpace(a[0])
    requires Words(a[1..] + sp + b) == Words(a[1..]) + Words(b)
    ensures Words(a + sp + b) == Words(a) + Words(b)
  {
    calc {
      Words(a + sp + b);
      { Assoc(a, sp, b); SpacePrefixStep(a, sp + b); }
      Words(a[1..] + (sp + b));
      { Assoc(a[1..], sp, b); }
      Words(a[1..]) + Words(b);
      { SpacePrefixStep(a, []); assert a + [] == a && a[1..] + [] == a[1..]; }
      Words(a) + Words(b);
    }
  }

  /** The inductive step of `WordsAppend` past the first word of `a`. */
  lemma AppendAfterWord(a: string, sp: string, b: string)
    requires a != [] && !IsSpace(a[0]) && sp != [] && AllSpace(sp)
    requires Words(a[TokenLen(a)..] + sp + b) == Words(a[TokenLen(a)..]) + Words(b)
    ensures Words(a + sp + b) == Words(a) + Words(b)
  {
    var n := TokenLen(a);
    calc {
      Words(a + sp + b);
      { Assoc(a, sp, b); }
      Words(a + (sp + b));
      { WordAhead(a, sp + b); }
      [a[..n]] + Words(a[n..] + (sp + b));
      { Assoc(a[n..], sp, b); }
      [a[..n]] + (Words(a[n..]) + Words(b));
      { Assoc([a[..n]], Words(a[n..]), Words(b)); }
      [a[..n]] + Words(a[n..]) + Words(b);
      { WordsFirst(a); }
      Words(a) + Words(b);
    }
  }

  /** The first word of `a + c`, when `a` starts with one and `c` starts with
      whitespace, is the first word of `a`. */
  lemma WordAhead(a: string, c: string)
    requires a != [] && !IsSpace(a[0]) && c != [] && IsSpace(c[0])
    ensures var n := TokenLen(a); Words(a + c) == [a[..n]] + Words(a[n..] + c)
  {
    var n := TokenLen(a);
    TokenLenAppend(a, c);
    assert (a + c)[0] == a[0];
    WordsFirst(a + c);
    SliceAppend(a, c, n);
  }

  /** A text that starts with a word: that word, then the words of the rest. */
  lemma WordsFirst(s: string)
    requires s != [] && !IsSpace(s[0])
    ensures Words(s) == [s[..TokenLen(s)]] + Words(s[TokenLen(s)..])
  {
  }

  /** Trailing whitespace contributes no word. */
  lemma WordsSpaceSuffix(a: string, sp: string)
    requires AllSpace(sp)
    ensures Words(a + sp) == Words(a)
  {
    if sp != [] {
      assert a + sp + [] == a + sp;
      WordsAppend(a, sp, []);
    } else {
      assert a + sp == a;
    }
  }

  /** Stripping the ends changes no word. */
  lemma StripWords(s: string)
    ensures Words(Strip(s)) == Words(s)
  {
    var i, j := StripIsSlice(s);
    calc {
      Words(s);
      { Reassemble(s, i, j); }
      Words(s[..i] + s[i..j] + s[j..]);
      { assert s[..i] + s[i..j] + s[j..] == s[..i] + (s[i..j] + s[j..]);
        WordsSpacePrefix(s[..i], s[i..j] + s[j..]); }
      Words(s[i..j] + s[j..]);
      { WordsSpaceSuffix(s[i..j], s[j..]); }
      Words(s[i..j]);
    }
  }

  /** Joining words with single spaces gives normal text, empty only for no words. */
  lemma {:induction false} JoinWordsNormal(ws: seq<string>)
    requires forall k :: 0 <= k < |ws| ==> IsWord(ws[k])
    ensures Normal(Join(ws, " "))
    ensures Join(ws, " ") == [] <==> ws == []
    ensures ws != [] ==> !IsSpace(Join(ws, " ")[0]) && !IsSpace(Join(ws, " ")[|Join(ws, " ")| - 1])
    decreases |ws|
  {
    if |ws| > 1 {
      JoinWordsNormal(ws[1..]);
      var w, t := ws[0], Join(ws[1..], " ");
      var s := Join(ws, " ");
      assert s == w + " " + t;
      forall i | 0 <= i < |s| && IsSpace(s[i])
        ensures s[i] == ' ' && 0 < i < |s| - 1 && !IsSpace(s[i + 1])
      {
        if i > |w| {
          assert s[i] == t[i - |w| - 1];
          assert s[i + 1] == t[i - |w|];
        }
      }
    }
  }

  /** `split()` recovers the words that were joined with single spaces. */
  lemma {:induction false} WordsJoin(ws: seq<string>)
    requires forall k :: 0 <= k < |ws| ==> IsWord(ws[k])
    ensures Words(Join(ws, " ")) == ws
    decreases |ws|
  {
    if |ws| == 1 {
      assert TokenLen(ws[0]) == |ws[0]|;
      OneWord(ws[0]);
    } else if |ws| > 1 {
      var w, t := ws[0], Join(ws[1..], " ");
      calc {
        Words(Join(ws, " "));
        Words(w + " " + t);
        { assert w + " " + t == w + (" " + t); FirstWord(w, " " + t); }
        [w] + Words(t);
        { WordsJoin(ws[1..]); }
        [w] + ws[1..];
        ws;
      }
    }
  }

  /** A word followed by whitespace is the first word. */
  lemma FirstWord(w: string, rest: string)
    requires IsWord(w) && rest != [] && IsSpace(rest[0])
    ensures Words(w + rest) == [w] + Words(rest[1..])
  {
    var s := w + rest;
    assert s[|w|] == rest[0];
    assert TokenLen(s) == |w| by {
      assert forall i :: 0 <= i < |w| ==> s[i] == w[i];
    }
    assert s[..|w|] == w;
    assert s[|w|..] == rest;
  }

  /** Normalising twice gives the same as normalising once. */
  lemma NormalizeIdempotent(s: string)
    ensures Normalize(Normalize(s)) == Normalize(s)
  {
    var ws := Words(Strip(s));
    var r := Normalize(s);
    StripFixpoint(r);
    WordsJoin(ws);
  }

  /** Text that is already normal is left as it is by normalisation. */
  lemma NormalFixpoint(s: string)
    requires Normal(s)
    ensures Normalize(s) == s
  {
    StripFixpoint(s);
    if s != [] {
      assert !IsSpace(s[0]) && !IsSpace(s[|s| - 1]);
    }
    NormalWords(s);
  }

  /** Splitting normal text on whitespace and joining with single spaces
      gives the text back. */
  lemma {:induction false} NormalWords(s: string)
    requires Normal(s)
    ensures Join(Words(s), " ") == s
    decreases |s|
  {
    if s != [] {
      var n := TokenLen(s);
      if n == |s| {
        OneWord(s);
      } else {
        var t := NormalRest(s);
        calc {
          Join(Words(s), " ");
          Join([s[..n]] + Words(t), " ");
          { JoinCons(s[..n], Words(t), " "); }
          s[..n] + " " + Join(Words(t), " ");
          { NormalWords(t); }
          s[..n] + " " + t;
          { assert s == s[..n] + " " + t; }
          s;
        }
      }
    }
  }

  lemma OneWord(s: string)
    requires s != [] && TokenLen(s) == |s|
    ensures Words(s) == [s]
  {
    assert s[..|s|] == s && s[|s|..] == [];
  }

  lemma JoinCons(w: string, ws: seq<string>, sep: string)
    requires ws != []
    ensures Join([w] + ws, sep) == w + sep + Join(ws, sep)
  {
    assert ([w] + ws)[1..] == ws;
  }

  /** Past the first word of normal text come a single space and more normal text. */
  lemma NormalRest(s: string) returns (t: string)
    requires Normal(s) && s != [] && TokenLen(s) < |s|
    ensures var n := TokenLen(s);
      t == s[n + 1..] && s[n] == ' ' && Normal(t) && Words(t) != [] && Words(s) == [s[..n]] + Words(t)
  {
    var n := TokenLen(s);
    assert !IsSpace(s[0]);
    t := s[n + 1..];
    assert s[n..][1..] == t;
    forall i | 0 <= i < |t| && IsSpace(t[i])
      ensures t[i] == ' ' && 0 < i < |t| - 1 && !IsSpace(t[i + 1])
    {
      assert t[i] == s[n + 1 + i];
    }
    assert !IsSpace(t[0]);
  }

  /** Single spaces between words, nothing else that is whitespace. */
  predicate Normal(r: string) {
    (forall i :: 0 <= i < |r| && IsSpace(r[i]) ==> r[i] == ' ' && 0 < i < |r| - 1)
    && (forall i, j :: 0 <= i < |r| && j == i + 1 && j < |r| && IsSpace(r[i]) ==> !IsSpace(r[j]))
  }
}

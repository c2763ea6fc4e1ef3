/** Character-level helpers shared by both pipelines, and the tokenizer and
    counter that turn specialist text into a word -> count table
    (extract_words.py, calculate_word_frequencies_from_text).

    Characters are treated as ASCII: `LowerChar` folds 'A'..'Z' and leaves
    every other character alone, and a word character is an ASCII letter,
    digit or '_'. */
module Text {

  /** Python's `str.lower` restricted to ASCII. */
  function LowerChar(c: char): (d: char)
  {
    if 'A' <= c <= 'Z' then (c as int - 'A' as int + 'a' as int) as char else c
  }

  predicate IsUpper(c: char)
  {
    'A' <= c <= 'Z'
  }

  function Lower(s: string): (r: string)
    ensures |r| == |s|
    ensures forall i :: 0 <= i < |s| ==> r[i] == LowerChar(s[i])
  {
    seq(|s|, i requires 0 <= i < |s| => LowerChar(s[i]))
  }

  /** A string that `Lower` leaves unchanged: it holds no upper-case letter. */
  predicate IsLower(s: string)
  {
    forall i :: 0 <= i < |s| ==> !IsUpper(s[i])
  }

  /** The regular-expression class `\w`, restricted to ASCII. */
  predicate IsWordChar(c: char)
  {
    ('a' <= c <= 'z') || ('A' <= c <= 'Z') || ('0' <= c <= '9') || c == '_'
  }

  /** What `\b\w+\b` matches: a non-empty run of word characters. */
  predicate IsToken(w: string)
  {
    |w| > 0 && forall i :: 0 <= i < |w| ==> IsWordChar(w[i])
  }

  lemma LowerIsLower(s: string)
    ensures IsLower(Lower(s))
    ensures Lower(Lower(s)) == Lower(s)
  {
  }

  /** Length of the run of word characters that starts `s`. */
  function RunLength(s: string): (n: nat)
    ensures n <= |s|
    ensures forall i :: 0 <= i < n ==> IsWordChar(s[i])
    ensures n < |s| ==> !IsWordChar(s[n])
  {
    if |s| == 0 || !IsWordChar(s[0]) then 0 else 1 + RunLength(s[1..])
  }

  /** `re.findall(r"\b\w+\b", s)`: the maximal runs of word characters, left
      to right. A `\b` holds only at the edge of a run, so every match is a
      whole run. */
  function Tokens(s: string): (ts: seq<string>)
    ensures forall k :: 0 <= k < |ts| ==> IsToken(ts[k])
    decreases |s|
  {
    if |s| == 0 then []
    else if !IsWordChar(s[0]) then Tokens(s[1..])
    else
      var n := RunLength(s);
      [s[..n]] + Tokens(s[n..])
  }

  /** An independent count of the runs: a two-state scanner that counts the
      positions where a word character follows a separator (or the start). */
  function RunStarts(s: string, inWord: bool): (n: nat)
  {
    if |s| == 0 then 0
    else (if IsWordChar(s[0]) && !inWord then 1 else 0) + RunStarts(s[1..], IsWordChar(s[0]))
  }

  /** Scanning the rest of a run in the "inside a word" state counts the
      same as scanning from the end of the run in the "outside" state. */
  lemma {:induction false} RunStartsSkipRun(s: string)
    ensures RunStarts(s, true) == RunStarts(s[RunLength(s)..], false)
    decreases |s|
  {
    if |s| == 0 {
    } else if !IsWordChar(s[0]) {
      assert RunLength(s) == 0;
    } else {
      RunStartsSkipRun(s[1..]);
      assert s[1..][RunLength(s[1..])..] == s[RunLength(s)..];
    }
  }

  /** The tokenizer yields exactly one token per maximal run. */
  lemma {:induction false} TokenCountIsRunCount(s: string)
    ensures |Tokens(s)| == RunStarts(s, false)
    decreases |s|
  {
    if |s| == 0 {
    } else if !IsWordChar(s[0]) {
      TokenCountIsRunCount(s[1..]);
    } else {
      var n := RunLength(s);
      TokenCountIsRunCount(s[n..]);
      RunStartsSkipRun(s[1..]);
      assert s[1..][RunLength(s[1..])..] == s[n..];
    }
  }

  /** The word characters of `s`, in order. */
  function WordChars(s: string): (r: string)
  {
    if |s| == 0 then [] else (if IsWordChar(s[0]) then [s[0]] else []) + WordChars(s[1..])
  }

  function Flatten(ts: seq<string>): (s: string)
  {
    if |ts| == 0 then [] else ts[0] + Flatten(ts[1..])
  }

  lemma {:induction false} WordCharsOfRun(s: string, n: nat)
    requires n <= |s|
    requires forall i :: 0 <= i < n ==> IsWordChar(s[i])
    ensures WordChars(s) == s[..n] + WordChars(s[n..])
    decreases n
  {
    if n == 0 {
      assert s[n..] == s;
    } else {
      WordCharsOfRun(s[1..], n - 1);
      assert s[1..][n - 1..] == s[n..];
      assert WordChars(s) == [s[0]] + WordChars(s[1..]);
      assert s[..n] == [s[0]] + s[1..][..n - 1];
    }
  }

  /** No character is lost or invented: the tokens, concatenated, are the
      word characters of the text. */
  lemma {:induction false} TokensCoverWordChars(s: string)
    ensures Flatten(Tokens(s)) == WordChars(s)
    decreases |s|
  {
    if |s| == 0 {
    } else if !IsWordChar(s[0]) {
      TokensCoverWordChars(s[1..]);
    } else {
      var n := RunLength(s);
      TokensCoverWordChars(s[n..]);
      WordCharsOfRun(s, n);
      assert ([s[..n]] + Tokens(s[n..]))[1..] == Tokens(s[n..]);
    }
  }

  /** Tokens of lower-cased text are lower case. */
  lemma {:induction false} TokensOfLowerAreLower(s: string)
    requires IsLower(s)
    ensures forall k :: 0 <= k < |Tokens(s)| ==> IsLower(Tokens(s)[k])
    decreases |s|
  {
    if |s| == 0 {
    } else if !IsWordChar(s[0]) {
      TokensOfLowerAreLower(s[1..]);
    } else {
      var n := RunLength(s);
      TokensOfLowerAreLower(s[n..]);
    }
  }

  /** `t` occurs in `s` at position `p` as a whole run: it is neither
      preceded nor followed by a word character (the two `\b` anchors). */
  predicate MaximalRunAt(s: string, t: string, p: int)
  {
    && 0 <= p && p + |t| <= |s|
    && s[p..p + |t|] == t
    && (p == 0 || !IsWordChar(s[p - 1]))
    && (p + |t| == |s| || !IsWordChar(s[p + |t|]))
  }

  /** `t` is one of the maximal runs of `s`. */
  predicate IsRunOf(s: string, t: string)
  {
    exists p :: 0 <= p <= |s| && MaximalRunAt(s, t, p)
  }

  /** A whole run of the suffix `s[d..]` is a whole run of `s`, shifted by
      `d`, unless it starts the suffix right after a word character. */
  lemma ShiftRun(s: string, d: int, t: string, p: int)
    requires 0 <= d <= |s| && MaximalRunAt(s[d..], t, p)
    requires p == 0 && d > 0 ==> !IsWordChar(s[d - 1])
    ensures MaximalRunAt(s, t, p + d)
  {
    assert s[p + d..p + d + |t|] == s[d..][p..p + |t|];
  }

  /** Every token is a whole maximal run of the text, never part of one. */
  lemma {:induction false} TokensAreMaximalRuns(s: string)
    ensures forall k :: 0 <= k < |Tokens(s)| ==> IsRunOf(s, Tokens(s)[k])
    decreases |s|
  {
    if |s| == 0 {
    } else if !IsWordChar(s[0]) {
      TokensAreMaximalRuns(s[1..]);
      forall k | 0 <= k < |Tokens(s)| ensures IsRunOf(s, Tokens(s)[k]) {
        var t := Tokens(s[1..])[k];
        assert IsRunOf(s[1..], t);
        var p :| 0 <= p <= |s| - 1 && MaximalRunAt(s[1..], t, p);
        ShiftRun(s, 1, t, p);
      }
    } else {
      var n := RunLength(s);
      var rest := Tokens(s[n..]);
      assert Tokens(s) == [s[..n]] + rest;
      TokensAreMaximalRuns(s[n..]);
      forall k | 0 <= k < |Tokens(s)| ensures IsRunOf(s, Tokens(s)[k]) {
        var t := Tokens(s)[k];
        if k == 0 {
          assert s[0..n] == s[..n];
          assert MaximalRunAt(s, t, 0);
        } else {
          assert t == rest[k - 1];
          assert IsRunOf(s[n..], t);
          var p :| 0 <= p <= |s| - n && MaximalRunAt(s[n..], t, p);
          assert IsToken(t);
          assert s[n..][p..p + |t|][0] == s[n..][p];
          ShiftRun(s, n, t, p);
        }
      }
    }
  }

  /** The words `ts` sit in `s` at the positions `ps`, each as a whole run,
      left to right and without overlapping. */
  predicate PlacedAt(s: string, ts: seq<string>, ps: seq<int>)
  {
    && |ps| == |ts|
    && (forall k :: 0 <= k < |ps| ==> MaximalRunAt(s, ts[k], ps[k]))
    && (forall k :: 0 <= k < |ps| - 1 ==> ps[k] + |ts[k]| < ps[k + 1])
  }

  /** Runs placed in the suffix `s[d..]` are runs of `s`, shifted by `d`,
      provided none starts the suffix right after a word character. */
  lemma PlacedShift(s: string, d: int, ts: seq<string>, qs: seq<int>)
    requires 0 < d <= |s| && PlacedAt(s[d..], ts, qs)
    requires !IsWordChar(s[d - 1]) || forall k :: 0 <= k < |qs| ==> qs[k] > 0
    ensures PlacedAt(s, ts, seq(|qs|, k requires 0 <= k < |qs| => qs[k] + d))
  {
    forall k | 0 <= k < |qs| ensures MaximalRunAt(s, ts[k], qs[k] + d) {
      ShiftRun(s, d, ts[k], qs[k]);
    }
  }

  /** In text that does not start with a word character, no token-shaped run
      is placed at position 0. */
  lemma PlacedAfterStart(t: string, ts: seq<string>, qs: seq<int>)
    requires PlacedAt(t, ts, qs)
    requires forall k :: 0 <= k < |ts| ==> IsToken(ts[k])
    requires |t| > 0 ==> !IsWordChar(t[0])
    ensures forall k :: 0 <= k < |qs| ==> qs[k] > 0
  {
    forall k | 0 <= k < |qs| ensures qs[k] > 0 {
      assert IsToken(ts[k]);
      assert t[qs[k]..qs[k] + |ts[k]|][0] == t[qs[k]];
    }
  }

  /** A separator at the front moves every placed token one position on. */
  lemma PlacedSkip(s: string, qs: seq<int>)
    requires |s| > 0 && !IsWordChar(s[0]) && PlacedAt(s[1..], Tokens(s[1..]), qs)
    ensures PlacedAt(s, Tokens(s), seq(|qs|, k requires 0 <= k < |qs| => qs[k] + 1))
  {
    PlacedShift(s, 1, Tokens(s[1..]), qs);
  }

  /** A run placed before every placed token extends the placement. */
  lemma PlacedCons(s: string, t: string, p: int, ts: seq<string>, ps: seq<int>)
    requires MaximalRunAt(s, t, p) && PlacedAt(s, ts, ps)
    requires |ps| > 0 ==> p + |t| < ps[0]
    ensures PlacedAt(s, [t] + ts, [p] + ps)
  {
    var ts', ps' := [t] + ts, [p] + ps;
    forall k | 1 <= k < |ps'| ensures MaximalRunAt(s, ts'[k], ps'[k]) {
      assert ts'[k] == ts[k - 1] && ps'[k] == ps[k - 1];
    }
    forall k | 1 <= k < |ps'| - 1 ensures ps'[k] + |ts'[k]| < ps'[k + 1] {
      assert ts'[k] == ts[k - 1] && ps'[k] == ps[k - 1] && ps'[k + 1] == ps[k];
    }
  }

  /** A leading run is placed at 0, before every token of the rest. */
  lemma PlacedRun(s: string, qs: seq<int>)
    requires |s| > 0 && IsWordChar(s[0])
    requires PlacedAt(s[RunLength(s)..], Tokens(s[RunLength(s)..]), qs)
    ensures PlacedAt(s, Tokens(s), [0] + seq(|qs|, k requires 0 <= k < |qs| => qs[k] + RunLength(s)))
  {
    var n: int := RunLength(s);
    var ts := Tokens(s[n..]);
    var ps := seq(|qs|, k requires 0 <= k < |qs| => qs[k] + n);
    PlacedAfterStart(s[n..], ts, qs);
    PlacedShift(s, n, ts, qs);
    assert s[0..n] == s[..n];
    assert MaximalRunAt(s, s[..n], 0);
    PlacedCons(s, s[..n], 0, ts, ps);
    assert Tokens(s) == [s[..n]] + ts;
  }

  /** The tokens are runs of the text in the order they occur in it. With
      `TokenCountIsRunCount` this makes them every run, left to right. */
  lemma {:induction false} TokensInTextOrder(s: string)
    ensures exists ps :: PlacedAt(s, Tokens(s), ps)
    decreases |s|
  {
    if |s| == 0 {
      var ps: seq<int> := [];
      assert PlacedAt(s, Tokens(s), ps);
    } else if !IsWordChar(s[0]) {
      TokensInTextOrder(s[1..]);
      var qs :| PlacedAt(s[1..], Tokens(s[1..]), qs);
      PlacedSkip(s, qs);
    } else {
      var n := RunLength(s);
      TokensInTextOrder(s[n..]);
      var qs :| PlacedAt(s[n..], Tokens(s[n..]), qs);
      PlacedRun(s, qs);
    }
  }

  /** The number of positions from `i` on where `w` occurs in `s` as a whole
      run. */
  function RunsFrom(s: string, w: string, i: nat): (n: nat)
    decreases |s| - i
  {
    if i >= |s| then 0 else (if MaximalRunAt(s, w, i) then 1 else 0) + RunsFrom(s, w, i + 1)
  }

  /** Whether `w` is a whole run at `p` is the same in `s` and in its suffix
      `s[d..]`, unless the suffix starts in the middle of a run. */
  lemma MaximalRunShift(s: string, w: string, d: int, p: int)
    requires IsToken(w) && 0 <= d <= p <= |s|
    requires p == d && 0 < d < |s| ==> !IsWordChar(s[d - 1]) || !IsWordChar(s[d])
    ensures MaximalRunAt(s, w, p) <==> MaximalRunAt(s[d..], w, p - d)
  {
    if p + |w| <= |s| {
      assert s[p..p + |w|] == s[d..][p - d..p - d + |w|];
      assert s[p..p + |w|][0] == s[p];
    }
  }

  lemma {:induction false} RunsFromShift(s: string, w: string, d: nat, i: nat)
    requires IsToken(w) && d <= i <= |s|
    requires i == d && 0 < d < |s| ==> !IsWordChar(s[d - 1]) || !IsWordChar(s[d])
    ensures RunsFrom(s, w, i) == RunsFrom(s[d..], w, i - d)
    decreases |s| - i
  {
    if i < |s| {
      MaximalRunShift(s, w, d, i);
      RunsFromShift(s, w, d, i + 1);
    }
  }

  /** No position inside a run but after its start begins a whole run. */
  lemma {:induction false} RunsFromInsideRun(s: string, w: string, i: nat)
    requires 1 <= i <= RunLength(s)
    ensures RunsFrom(s, w, i) == RunsFrom(s, w, RunLength(s))
    decreases RunLength(s) - i
  {
    if i < RunLength(s) {
      RunsFromInsideRun(s, w, i + 1);
    }
  }

  /** A prefix of word characters followed by the end or a separator is the
      whole leading run. */
  lemma {:induction false} RunLengthIs(s: string, m: nat)
    requires m <= |s|
    requires forall i :: 0 <= i < m ==> IsWordChar(s[i])
    requires m == |s| || !IsWordChar(s[m])
    ensures RunLength(s) == m
  {
    if m > 0 {
      RunLengthIs(s[1..], m - 1);
    }
  }

  /** The whole run at the start of `s` is its first run, and nothing else. */
  lemma FirstRunAt(s: string, w: string)
    requires IsToken(w) && 0 < |s| && IsWordChar(s[0])
    ensures MaximalRunAt(s, w, 0) <==> w == s[..RunLength(s)]
  {
    var n := RunLength(s);
    if MaximalRunAt(s, w, 0) {
      assert s[0..|w|] == w;
      forall i | 0 <= i < |w| ensures IsWordChar(s[i]) {
        assert s[0..|w|][i] == s[i];
      }
      RunLengthIs(s, |w|);
      assert s[0..|w|] == s[..|w|];
    }
    if w == s[..n] {
      assert s[0..n] == s[..n];
    }
  }

  /** Each token-shaped word occurs among the tokens exactly as often as it
      occurs in the text as a whole run. */
  lemma {:induction false} TokenMultiplicity(s: string, w: string)
    requires IsToken(w)
    ensures multiset(Tokens(s))[w] == RunsFrom(s, w, 0)
    decreases |s|
  {
    if |s| == 0 {
    } else if !IsWordChar(s[0]) {
      TokenMultiplicity(s[1..], w);
      MaximalRunShift(s, w, 0, 0);
      assert s[0..] == s;
      assert !MaximalRunAt(s, w, 0) by {
        if 0 + |w| <= |s| {
          assert s[0..|w|][0] == s[0];
        }
      }
      RunsFromShift(s, w, 1, 1);
    } else {
      var n := RunLength(s);
      TokenMultiplicity(s[n..], w);
      RunsFromShift(s, w, n, n);
      RunsFromInsideRun(s, w, 1);
      FirstRunAt(s, w);
      assert Tokens(s) == [s[..n]] + Tokens(s[n..]);
    }
  }

  // ---------------------------------------------------------------------
  // collections.Counter over the token list, as an insertion-ordered table

  /** A table in dict iteration order: keys are pairwise distinct. */
  predicate DistinctKeys(t: seq<(string, int)>)
  {
    forall i, j :: 0 <= i < j < |t| ==> t[i].0 != t[j].0
  }

  function Keys(t: seq<(string, int)>): (ks: set<string>)
  {
    set i | 0 <= i < |t| :: t[i].0
  }

  function SumCounts(t: seq<(string, int)>): (total: int)
  {
    if |t| == 0 then 0 else SumCounts(t[..|t| - 1]) + t[|t| - 1].1
  }

  /** `counter[w] += 1`: increment an existing key in place, or append a new
      key with count 1 at the end of the iteration order. */
  function Bump(t: seq<(string, int)>, w: string): (r: seq<(string, int)>)
    requires DistinctKeys(t)
    ensures DistinctKeys(r)
    ensures forall i :: 0 <= i < |t| && t[i].0 == w ==> r == t[i := (w, t[i].1 + 1)]
    ensures w !in Keys(t) ==> r == t + [(w, 1)]
  {
    if |t| == 0 then [(w, 1)]
    else if t[0].0 == w then [(w, t[0].1 + 1)] + t[1..]
    else
      var rest := Bump(t[1..], w);
      assert forall i :: 1 <= i < |t| ==> t[i] == t[1..][i - 1];
      [t[0]] + rest
  }

  lemma {:induction false} SumCountsAppend(t: seq<(string, int)>, e: (string, int))
    ensures SumCounts(t + [e]) == SumCounts(t) + e.1
  {
  }

  lemma {:induction false} SumCountsUpdate(t: seq<(string, int)>, i: nat, e: (string, int))
    requires i < |t|
    ensures SumCounts(t[i := e]) == SumCounts(t) - t[i].1 + e.1
    decreases |t|
  {
    var n := |t| - 1;
    if i == n {
      assert t[i := e][..n] == t[..n];
    } else {
      SumCountsUpdate(t[..n], i, e);
      assert t[i := e][..n] == t[..n][i := e];
    }
  }

  lemma SumCountsBump(t: seq<(string, int)>, w: string)
    requires DistinctKeys(t)
    ensures SumCounts(Bump(t, w)) == SumCounts(t) + 1
  {
    if w in Keys(t) {
      var i :| 0 <= i < |t| && t[i].0 == w;
      SumCountsUpdate(t, i, (w, t[i].1 + 1));
    } else {
      SumCountsAppend(t, (w, 1));
    }
  }

  lemma KeysOfBump(t: seq<(string, int)>, w: string)
    requires DistinctKeys(t)
    ensures Keys(Bump(t, w)) == Keys(t) + {w}
  {
    if w in Keys(t) {
      var i :| 0 <= i < |t| && t[i].0 == w;
      KeysOfUpdate(t, i, (w, t[i].1 + 1));
    } else {
      KeysOfAppend(t, (w, 1));
    }
  }

  lemma KeysOfUpdate(t: seq<(string, int)>, i: nat, e: (string, int))
    requires i < |t| && e.0 == t[i].0
    ensures Keys(t[i := e]) == Keys(t)
  {
    var r := t[i := e];
    assert forall k :: 0 <= k < |t| ==> r[k].0 == t[k].0;
  }

  lemma KeysOfAppend(t: seq<(string, int)>, e: (string, int))
    ensures Keys(t + [e]) == Keys(t) + {e.0}
  {
    var r := t + [e];
    assert forall k :: 0 <= k < |t| ==> r[k] == t[k];
    assert r[|t|] == e;
  }

  /** `dict(Counter(ws))`: one entry per distinct token, in order of first
      occurrence, holding the number of times it occurs. */
  function CountTokens(ws: seq<string>): (r: seq<(string, int)>)
    ensures DistinctKeys(r)
  {
    if |ws| == 0 then [] else Bump(CountTokens(ws[..|ws| - 1]), ws[|ws| - 1])
  }

  /** The keys are exactly the distinct tokens. */
  lemma {:induction false} CountTokensKeys(ws: seq<string>)
    ensures Keys(CountTokens(ws)) == set w | w in ws
  {
    if |ws| > 0 {
      var n := |ws| - 1;
      CountTokensKeys(ws[..n]);
      KeysStep(CountTokens(ws[..n]), ws[..n], ws[n]);
      assert ws == ws[..n] + [ws[n]];
    }
  }

  /** If a table's keys are the tokens seen so far, then after one more
      increment they are the tokens seen so far plus the new one. */
  lemma KeysStep(t: seq<(string, int)>, seen: seq<string>, x: string)
    requires DistinctKeys(t)
    requires Keys(t) == set w | w in seen
    ensures Keys(Bump(t, x)) == set w | w in seen + [x]
  {
    KeysOfBump(t, x);
    assert (set w | w in seen + [x]) == (set w | w in seen) + {x};
  }

  /** Each entry holds the number of occurrences of its key. */
  lemma {:induction false} CountTokensCounts(ws: seq<string>)
    ensures forall i :: 0 <= i < |CountTokens(ws)| ==>
              CountTokens(ws)[i].1 == multiset(ws)[CountTokens(ws)[i].0]
  {
    if |ws| > 0 {
      var n := |ws| - 1;
      CountTokensCounts(ws[..n]);
      CountTokensKeys(ws[..n]);
      CountsStep(CountTokens(ws[..n]), multiset(ws[..n]), ws[n]);
      assert ws == ws[..n] + [ws[n]];
    }
  }

  /** One `Counter` increment keeps every count equal to the multiplicity
      of its key, once `w` is added to the multiset of tokens seen. */
  lemma CountsStep(t: seq<(string, int)>, seen: multiset<string>, w: string)
    requires DistinctKeys(t)
    requires forall i :: 0 <= i < |t| ==> t[i].1 == seen[t[i].0]
    requires w !in Keys(t) ==> seen[w] == 0
    ensures forall i :: 0 <= i < |Bump(t, w)| ==> Bump(t, w)[i].1 == (seen + multiset{w})[Bump(t, w)[i].0]
  {
    var m := seen + multiset{w};
    if w in Keys(t) {
      var i :| 0 <= i < |t| && t[i].0 == w;
      var r := t[i := (w, t[i].1 + 1)];
      assert Bump(t, w) == r;
      forall k | 0 <= k < |r| ensures r[k].1 == m[r[k].0] {
        if k != i {
          assert r[k] == t[k];
        }
      }
    } else {
      var r := t + [(w, 1)];
      assert Bump(t, w) == r;
      forall k | 0 <= k < |r| ensures r[k].1 == m[r[k].0] {
        if k < |t| {
          assert r[k] == t[k];
        }
      }
    }
  }

  /** Keys appear in order of first occurrence: every occurrence of a later
      key is preceded by an occurrence of each earlier key. */
  predicate FirstOccurrenceOrder(r: seq<(string, int)>, ws: seq<string>)
  {
    forall i, j, a :: 0 <= i < j < |r| && 0 <= a < |ws| && ws[a] == r[j].0 ==> r[i].0 in ws[..a]
  }

  /** One instance of the ordering after one more token `x` is counted. */
  lemma OrderStep(p: seq<string>, x: string, prev: seq<(string, int)>, i: nat, j: nat, a: nat)
    requires DistinctKeys(prev)
    requires FirstOccurrenceOrder(prev, p)
    requires forall w :: w in Keys(prev) <==> w in p
    requires i < j < |Bump(prev, x)| && a < |p| + 1 && (p + [x])[a] == Bump(prev, x)[j].0
    ensures Bump(prev, x)[i].0 in (p + [x])[..a]
  {
    var ws := p + [x];
    var n := |p|;
    var r := Bump(prev, x);
    var isNew := x !in Keys(prev);
    if isNew {
      assert r == prev + [(x, 1)];
    } else {
      var k :| 0 <= k < |prev| && prev[k].0 == x;
      assert r == prev[k := (x, prev[k].1 + 1)];
    }
    assert r[i].0 == prev[i].0;
    if j < |prev| {
      assert r[j].0 == prev[j].0;
      if a < n {
        assert ws[..a] == p[..a];
      } else {
        assert prev[j].0 in Keys(prev);
        var b :| 0 <= b < n && p[b] == prev[j].0;
        assert p[..b] == ws[..b];
      }
    } else {
      assert prev[i].0 in Keys(prev);
      if a < n {
        assert false;
      }
      assert ws[..a] == p;
    }
  }

  lemma {:induction false} CountTokensOrder(ws: seq<string>)
    ensures FirstOccurrenceOrder(CountTokens(ws), ws)
  {
    if |ws| > 0 {
      var n := |ws| - 1;
      CountTokensOrder(ws[..n]);
      CountTokensKeys(ws[..n]);
      assert ws == ws[..n] + [ws[n]];
      forall i, j, a | 0 <= i < j < |CountTokens(ws)| && 0 <= a < |ws| && ws[a] == CountTokens(ws)[j].0
        ensures CountTokens(ws)[i].0 in ws[..a]
      {
        OrderStep(ws[..n], ws[n], CountTokens(ws[..n]), i, j, a);
      }
    }
  }

  /** The counts add up to the number of tokens. */
  lemma {:induction false} CountTokensSum(ws: seq<string>)
    ensures SumCounts(CountTokens(ws)) == |ws|
  {
    if |ws| > 0 {
      var n := |ws| - 1;
      CountTokensSum(ws[..n]);
      SumCountsBump(CountTokens(ws[..n]), ws[n]);
    }
  }

  /** `calculate_word_frequencies_from_text`: lower-case, tokenize, count. */
  function WordFrequencies(text: string): (r: seq<(string, int)>)
    ensures DistinctKeys(r)
  {
    CountTokens(Tokens(Lower(text)))
  }

  /** Each key's count is the number of places where it occurs in the
      lower-cased text as a whole run. */
  lemma WordFrequenciesCounts(text: string)
    ensures forall i :: 0 <= i < |WordFrequencies(text)| ==>
              IsToken(WordFrequencies(text)[i].0)
              && WordFrequencies(text)[i].1 == RunsFrom(Lower(text), WordFrequencies(text)[i].0, 0)
  {
    var ws := Tokens(Lower(text));
    var r := WordFrequencies(text);
    CountTokensKeys(ws);
    CountTokensCounts(ws);
    forall i | 0 <= i < |r|
      ensures IsToken(r[i].0) && r[i].1 == RunsFrom(Lower(text), r[i].0, 0)
    {
      assert r[i].0 in Keys(r);
      var a :| 0 <= a < |ws| && ws[a] == r[i].0;
      TokenMultiplicity(Lower(text), r[i].0);
    }
  }

  /** A token-shaped word is a key exactly when it occurs in the lower-cased
      text as a whole run. */
  lemma WordFrequenciesKeys(text: string)
    ensures forall w :: IsToken(w) ==> (w in Keys(WordFrequencies(text)) <==> RunsFrom(Lower(text), w, 0) > 0)
  {
    var ws := Tokens(Lower(text));
    CountTokensKeys(ws);
    forall w | IsToken(w)
      ensures w in Keys(WordFrequencies(text)) <==> RunsFrom(Lower(text), w, 0) > 0
    {
      TokenMultiplicity(Lower(text), w);
    }
  }

  /** Every key is a lower-case token and every count is at least one; the
      counts add up to the number of maximal word runs of the lower-cased
      text. Each key's count is the number of places where it occurs in the
      lower-cased text as a whole run, a token-shaped word is a key exactly
      when it occurs there at least once, and keys come in order of first
      occurrence. */
  lemma WordFrequenciesSpec(text: string)
    ensures forall i :: 0 <= i < |WordFrequencies(text)| ==>
              IsToken(WordFrequencies(text)[i].0) && IsLower(WordFrequencies(text)[i].0)
              && WordFrequencies(text)[i].1 >= 1
    ensures SumCounts(WordFrequencies(text)) == RunStarts(Lower(text), false)
    ensures forall i :: 0 <= i < |WordFrequencies(text)| ==>
              WordFrequencies(text)[i].1 == RunsFrom(Lower(text), WordFrequencies(text)[i].0, 0)
    ensures forall w :: IsToken(w) ==> (w in Keys(WordFrequencies(text)) <==> RunsFrom(Lower(text), w, 0) > 0)
    ensures FirstOccurrenceOrder(WordFrequencies(text), Tokens(Lower(text)))
  {
    var ws := Tokens(Lower(text));
    var r := WordFrequencies(text);
    LowerIsLower(text);
    TokensOfLowerAreLower(Lower(text));
    CountTokensKeys(ws);
    CountTokensCounts(ws);
    forall i | 0 <= i < |r|
      ensures IsLower(r[i].0) && r[i].1 >= 1
    {
      assert r[i].0 in Keys(r);
      var a :| 0 <= a < |ws| && ws[a] == r[i].0;
    }
    WordFrequenciesCounts(text);
    WordFrequenciesKeys(text);
    CountTokensSum(ws);
    TokenCountIsRunCount(Lower(text));
    CountTokensOrder(ws);
  }
}

/** `extract_important_words_by_weirdness` (extract_words.py): score every
    word of the specialist table by the weirdness index
    `(ws / ts) / (wg / tg)`, keep the scores at or above `min_weirdness`,
    stable-sort them by descending score and keep the first `top_n`.

    Python's float arithmetic is modelled by exact `real` arithmetic, and a
    ZeroDivisionError by a `Failure` result. The specialist table is the
    dict's items in iteration order. */
module Weirdness {
  import opened Wrappers
  import Text
  import GeneralCorpus
  import opened StableSort

  /** `specialist_corpus_freqs.items()`, in dict order. */
  type SpecialistTable = seq<(string, int)>

  /** The value `general_freqs.get(word, 1.0)` falls back to. */
  const Fallback: real := 1.0

  /** `general_freqs.get(word, 1.0)`. */
  function GeneralFreq(g: GeneralCorpus.GeneralTable, w: string): (r: real)
  {
    if w in g.freqs then g.freqs[w] else Fallback
  }

  /** The weirdness index: the word's relative frequency in the specialist
      corpus over its relative frequency in the general corpus. */
  function Weirdness(ws: int, ts: int, wg: real, tg: real): (r: real)
    requires ts != 0 && wg != 0.0 && tg != 0.0
    ensures r * (wg / tg) == ws as real / ts as real
    ensures ws >= 0 && ts > 0 && wg > 0.0 && tg > 0.0 ==> r >= 0.0
  {
    (ws as real / ts as real) / (wg / tg)
  }

  /** None of the three divisions in the score of word `w` is by zero. */
  predicate Divisible(ts: int, g: GeneralCorpus.GeneralTable, w: string)
  {
    ts != 0 && g.tg != 0.0 && GeneralFreq(g, w) != 0.0
  }

  /** The general value a word is scored against, read off the general
      file: the value of the last valid row for the word, or 1.0 when no
      valid row names it. */
  lemma GeneralFreqOfRows(rows: seq<seq<string>>, parse: GeneralCorpus.Parser, w: string)
    ensures (forall i :: 0 <= i < |rows| && GeneralCorpus.Valid(rows[i], parse) ==> rows[i][0] != w) ==>
              GeneralFreq(GeneralCorpus.Load(rows, parse), w) == Fallback
    ensures forall i :: GeneralCorpus.LastValidFor(rows, parse, w, i) ==>
              GeneralFreq(GeneralCorpus.Load(rows, parse), w) == GeneralCorpus.Value(rows[i], parse)
  {
    var g := GeneralCorpus.Load(rows, parse);
    forall i | GeneralCorpus.LastValidFor(rows, parse, w, i)
      ensures GeneralFreq(g, w) == GeneralCorpus.Value(rows[i], parse)
    {
      var j :| GeneralCorpus.LastValidFor(rows, parse, w, j) && g.freqs[w] == GeneralCorpus.Value(rows[j], parse);
      GeneralCorpus.LastValidUnique(rows, parse, w, i, j);
    }
  }

  /** The scoring loop without the threshold: one (word, weirdness) pair per
      entry, in table order, or the ZeroDivisionError of the first entry
      whose score divides by zero. */
  function ScoreAll(spec: SpecialistTable, ts: int, g: GeneralCorpus.GeneralTable): (r: Result<seq<Scored>, Error>)
    ensures r.Failure? <==> exists i :: 0 <= i < |spec| && !Divisible(ts, g, spec[i].0)
    ensures r.Success? ==> |r.value| == |spec|
    ensures r.Success? ==> forall i :: 0 <= i < |spec| ==>
              r.value[i].0 == spec[i].0
              && r.value[i].1 == Weirdness(spec[i].1, ts, GeneralFreq(g, spec[i].0), g.tg)
  {
    if |spec| == 0 then Success([])
    else if !Divisible(ts, g, spec[0].0) then Failure(ZeroDivisionError)
    else
      match ScoreAll(spec[1..], ts, g)
      case Failure(e) =>
        assert exists i :: 0 <= i < |spec| - 1 && !Divisible(ts, g, spec[1..][i].0);
        Failure(e)
      case Success(rest) =>
        var w := spec[0].0;
        Success([(w, Weirdness(spec[0].1, ts, GeneralFreq(g, w), g.tg))] + rest)
  }

  /** `if weirdness >= min_weirdness: append`. */
  function AtLeast(xs: seq<Scored>, m: real): (r: seq<Scored>)
    ensures forall k :: 0 <= k < |r| ==> r[k].1 >= m && r[k] in xs
  {
    if |xs| == 0 then [] else (if xs[0].1 >= m then [xs[0]] else []) + AtLeast(xs[1..], m)
  }

  /** Reference count: how many pairs reach the threshold. */
  function CountAtLeast(xs: seq<Scored>, m: real): (n: nat)
  {
    if |xs| == 0 then 0 else (if xs[0].1 >= m then 1 else 0) + CountAtLeast(xs[1..], m)
  }

  /** The threshold keeps whole score levels: a level at or above it is
      kept in order, a level below it is dropped. */
  lemma {:induction false} AtLeastLevel(xs: seq<Scored>, m: real, v: real)
    ensures Level(AtLeast(xs, m), v) == if v >= m then Level(xs, v) else []
  {
    if |xs| > 0 {
      AtLeastLevel(xs[1..], m, v);
      LevelConcat(if xs[0].1 >= m then [xs[0]] else [], AtLeast(xs[1..], m), v);
    }
  }

  lemma {:induction false} AtLeastCount(xs: seq<Scored>, m: real)
    ensures |AtLeast(xs, m)| == CountAtLeast(xs, m)
  {
    if |xs| > 0 {
      AtLeastCount(xs[1..], m);
    }
  }

  /** Every pair that reaches the threshold is kept. */
  lemma {:induction false} AtLeastKeeps(xs: seq<Scored>, m: real, x: Scored)
    requires x in xs && x.1 >= m
    ensures x in AtLeast(xs, m)
  {
    if xs[0] != x {
      AtLeastKeeps(xs[1..], m, x);
    }
  }

  /** Raising the threshold never lets more pairs through. */
  lemma {:induction false} CountAtLeastMonotone(xs: seq<Scored>, m1: real, m2: real)
    requires m1 <= m2
    ensures CountAtLeast(xs, m2) <= CountAtLeast(xs, m1)
  {
    if |xs| > 0 {
      CountAtLeastMonotone(xs[1..], m1, m2);
    }
  }

  function Min(a: int, b: int): (m: int)
  {
    if a <= b then a else b
  }

  /** The scoring, filtering, sorting and truncation of
      `extract_important_words_by_weirdness`, once the general table is
      loaded. A table with no entries never divides, so it yields an empty
      list whatever `ts` and `tg` are. */
  function Rank(spec: SpecialistTable, g: GeneralCorpus.GeneralTable, topN: int, minW: real): (r: Result<seq<Scored>, Error>)
    requires topN >= 0
    ensures r.Failure? <==>
              |spec| > 0
              && (Text.SumCounts(spec) == 0 || g.tg == 0.0
                  || exists i :: 0 <= i < |spec| && GeneralFreq(g, spec[i].0) == 0.0)
    ensures r.Success? ==> SortedDesc(r.value) && |r.value| <= topN
  {
    var ts := Text.SumCounts(spec);
    match ScoreAll(spec, ts, g)
    case Failure(e) => Failure(e)
    case Success(scores) =>
      var full := Sort(AtLeast(scores, minW));
      assert SortedDesc(full[..Min(topN, |full|)]);
      Success(full[..Min(topN, |full|)])
  }

  /** The scores `Rank` ranks, in table order. */
  function Scores(spec: SpecialistTable, g: GeneralCorpus.GeneralTable): (r: Result<seq<Scored>, Error>)
  {
    ScoreAll(spec, Text.SumCounts(spec), g)
  }

  /** The truncated list is a prefix of the stable sort of the pairs that
      reach the threshold. */
  lemma RankIsPrefix(spec: SpecialistTable, g: GeneralCorpus.GeneralTable, topN: int, minW: real)
    requires topN >= 0
    ensures Rank(spec, g, topN, minW).Success? <==> Scores(spec, g).Success?
    ensures Rank(spec, g, topN, minW).Success? ==>
              var full := Sort(AtLeast(Scores(spec, g).value, minW));
              Rank(spec, g, topN, minW).value == full[..Min(topN, |full|)]
  {
  }

  /** Every returned pair is a word of the table with its weirdness, and
      that weirdness reaches the threshold. */
  lemma RankMembers(spec: SpecialistTable, g: GeneralCorpus.GeneralTable, topN: int, minW: real)
    requires topN >= 0
    ensures Rank(spec, g, topN, minW).Success? ==>
              var r := Rank(spec, g, topN, minW).value;
              forall k :: 0 <= k < |r| ==>
                r[k].1 >= minW
                && exists i :: 0 <= i < |spec| && spec[i].0 == r[k].0
                     && r[k].1 == Weirdness(spec[i].1, Text.SumCounts(spec), GeneralFreq(g, spec[i].0), g.tg)
  {
    RankIsPrefix(spec, g, topN, minW);
    if Scores(spec, g).Success? {
      var scores := Scores(spec, g).value;
      var passing := AtLeast(scores, minW);
      var full := Sort(passing);
      var r := Rank(spec, g, topN, minW).value;
      SortPermutes(passing);
      forall k | 0 <= k < |r|
        ensures r[k].1 >= minW
        ensures exists i :: 0 <= i < |spec| && spec[i].0 == r[k].0
                  && r[k].1 == Weirdness(spec[i].1, Text.SumCounts(spec), GeneralFreq(g, spec[i].0), g.tg)
      {
        assert r[k] == full[k];
        assert full[k] in multiset(passing);
        assert r[k] in passing;
        var i :| 0 <= i < |scores| && scores[i] == r[k];
      }
    }
  }

  /** The list has `min(top_n, number of words reaching the threshold)`
      pairs, and no word that reached the threshold but was left out
      scores more than a returned one. */
  lemma RankTopN(spec: SpecialistTable, g: GeneralCorpus.GeneralTable, topN: int, minW: real)
    requires topN >= 0
    ensures Rank(spec, g, topN, minW).Success? ==>
              var r := Rank(spec, g, topN, minW).value;
              var scores := Scores(spec, g).value;
              && |r| == Min(topN, CountAtLeast(scores, minW))
              && (forall x, k :: x in scores && x.1 >= minW && x !in r && 0 <= k < |r| ==> x.1 <= r[k].1)
  {
    RankIsPrefix(spec, g, topN, minW);
    if Scores(spec, g).Success? {
      var scores := Scores(spec, g).value;
      var passing := AtLeast(scores, minW);
      var full := Sort(passing);
      var n := Min(topN, |full|);
      var r := Rank(spec, g, topN, minW).value;
      AtLeastCount(scores, minW);
      SortPermutes(passing);
      forall x | x in scores && x.1 >= minW && x !in r
        ensures forall k :: 0 <= k < |r| ==> x.1 <= r[k].1
      {
        AtLeastKeeps(scores, minW, x);
        assert x in multiset(full);
        SortedPrefixDominates(full, n, x);
      }
    }
  }

  /** In a sorted list, anything outside a prefix scores no more than each
      element of that prefix. */
  lemma SortedPrefixDominates(full: seq<Scored>, n: nat, x: Scored)
    requires SortedDesc(full) && n <= |full|
    requires x in full && x !in full[..n]
    ensures forall k :: 0 <= k < n ==> x.1 <= full[..n][k].1
  {
    var j :| 0 <= j < |full| && full[j] == x;
    assert j >= n;
  }

  /** Stability: within one score, the returned pairs are the first ones
      of that score in table order. */
  lemma RankStable(spec: SpecialistTable, g: GeneralCorpus.GeneralTable, topN: int, minW: real, v: real)
    requires topN >= 0
    ensures Rank(spec, g, topN, minW).Success? ==>
              Level(Rank(spec, g, topN, minW).value, v) <= Level(Scores(spec, g).value, v)
  {
    RankIsPrefix(spec, g, topN, minW);
    if Scores(spec, g).Success? {
      var full := Sort(AtLeast(Scores(spec, g).value, minW));
      SortedPrefixStable(Scores(spec, g).value, minW, Min(topN, |full|), v);
    }
  }

  /** A prefix of the sorted passing pairs keeps, within each score, a prefix
      of that score's pairs in their original order. */
  lemma SortedPrefixStable(scores: seq<Scored>, minW: real, n: int, v: real)
    requires 0 <= n <= |Sort(AtLeast(scores, minW))|
    ensures Level(Sort(AtLeast(scores, minW))[..n], v) <= Level(scores, v)
  {
    var passing := AtLeast(scores, minW);
    var full := Sort(passing);
    SortStable(passing, v);
    AtLeastLevel(scores, minW, v);
    assert full == full[..n] + full[n..];
    LevelConcat(full[..n], full[n..], v);
  }

  /** Raising `min_weirdness` never lengthens the result. */
  lemma RankMonotone(spec: SpecialistTable, g: GeneralCorpus.GeneralTable, topN: int, m1: real, m2: real)
    requires topN >= 0 && m1 <= m2
    ensures Rank(spec, g, topN, m1).Success? == Rank(spec, g, topN, m2).Success?
    ensures Rank(spec, g, topN, m1).Success? ==>
              |Rank(spec, g, topN, m2).value| <= |Rank(spec, g, topN, m1).value|
  {
    RankTopN(spec, g, topN, m1);
    RankTopN(spec, g, topN, m2);
    if Scores(spec, g).Success? {
      CountAtLeastMonotone(Scores(spec, g).value, m1, m2);
    }
  }

  /** A threshold above every score, or `top_n = 0`, gives an empty list. */
  lemma RankEmpty(spec: SpecialistTable, g: GeneralCorpus.GeneralTable, topN: int, minW: real)
    requires topN >= 0
    requires Scores(spec, g).Success?
    requires topN == 0 || forall k :: 0 <= k < |Scores(spec, g).value| ==> Scores(spec, g).value[k].1 < minW
    ensures Rank(spec, g, topN, minW) == Success([])
  {
  }

  /** `extract_important_words_by_weirdness`: load the general table, then
      rank. It fails exactly when some specialist word's score divides by
      zero: a zero specialist total, a zero general total, or a general
      value of zero for that word. */
  function ExtractImportantWords(spec: SpecialistTable, rows: seq<seq<string>>, parse: GeneralCorpus.Parser,
                                 topN: int, minW: real): (r: Result<seq<Scored>, Error>)
    requires topN >= 0
    ensures r.Failure? <==>
              |spec| > 0
              && (Text.SumCounts(spec) == 0 || GeneralCorpus.Mass(rows, parse) == 0.0
                  || exists i :: 0 <= i < |spec| && GeneralFreq(GeneralCorpus.Load(rows, parse), spec[i].0) == 0.0)
  {
    Rank(spec, GeneralCorpus.Load(rows, parse), topN, minW)
  }

  /** A table counted from text has a positive total whenever it has an
      entry, so ranking it can fail only on the general side. */
  lemma TextTableTotal(text: string)
    ensures |Text.WordFrequencies(text)| > 0 ==> Text.SumCounts(Text.WordFrequencies(text)) > 0
  {
    Text.WordFrequenciesSpec(text);
    var t := Text.WordFrequencies(text);
    if |t| > 0 {
      PositiveSum(t);
    }
  }

  lemma {:induction false} PositiveSum(t: SpecialistTable)
    requires |t| > 0 && forall i :: 0 <= i < |t| ==> t[i].1 >= 1
    ensures Text.SumCounts(t) >= |t|
  {
    if |t| > 1 {
      PositiveSum(t[..|t| - 1]);
    } else {
      assert t[..0] == [];
    }
  }

  /** S = {a: 3, b: 1}, G = {a: 100, b: 100}: ts = 4, tg = 200, a scores
      1.5 and b 0.5, so a threshold of 1 keeps only a. */
  lemma TwoWordScenario()
    ensures Rank([("a", 3), ("b", 1)], GeneralCorpus.GeneralTable(map["a" := 100.0, "b" := 100.0], 200.0), 10, 1.0)
            == Success([("a", 1.5)])
  {
    var spec: SpecialistTable := [("a", 3), ("b", 1)];
    var g := GeneralCorpus.GeneralTable(map["a" := 100.0, "b" := 100.0], 200.0);
    assert spec[..1] == [("a", 3)] && spec[..1][..0] == [];
    assert Text.SumCounts(spec) == 4;
    var scores := ScoreAll(spec, 4, g).value;
    assert scores[0] == ("a", 1.5) && scores[1] == ("b", 0.5);
    assert scores == [("a", 1.5), ("b", 0.5)];
    assert AtLeast(scores, 1.0) == [("a", 1.5)];
    assert Sort([("a", 1.5)]) == [("a", 1.5)] by {
      assert [("a", 1.5)][..0] == [];
    }
  }

  /** A word absent from the general table is scored against the fallback
      1.0: S = {c: 2}, tg = 200 gives (2/2) / (1/200) = 200. */
  lemma FallbackScenario()
    ensures Rank([("c", 2)], GeneralCorpus.GeneralTable(map["a" := 200.0], 200.0), 10, 1.0)
            == Success([("c", 200.0)])
  {
  }
}

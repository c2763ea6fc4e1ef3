/** The reference-table aggregation of google_unigrams.py: each partition's
    raw n-gram records are folded into a word -> {freq, count} table
    (`process_letter`), the partition tables are merged by per-word addition
    (`merge_dicts`), and every merged entry is reduced to `freq / count`
    (`calculate_relative_freq`).

    The external n-gram store is abstracted as the sequence of records it
    yields for one partition; a partition whose fetch raised is `None`. */
module Unigrams {
  import opened Wrappers
  import Text

  /** One raw record of the n-gram store: the n-gram text and its match count. */
  datatype Record = Record(ngram: string, matchCount: int)

  /** The inner dict `{"freq": …, "count": …}`: summed match counts and the
      number of records that contributed to the sum. */
  datatype Entry = Entry(freq: int, count: int)

  type Table = map<string, Entry>

  /** The word a record is filed under: its lower-cased n-gram. */
  function Word(rec: Record): (w: string)
  {
    Text.Lower(rec.ngram)
  }

  /** Compound n-grams (those containing '_') are dropped. */
  predicate Retained(rec: Record)
  {
    '_' !in Word(rec)
  }

  // ---------------------------------------------------------------------
  // process_letter

  /** One iteration of the record loop. */
  function AddRecord(m: Table, rec: Record): (m': Table)
  {
    var w := Word(rec);
    if !Retained(rec) then m
    else if w in m then m[w := Entry(m[w].freq + rec.matchCount, m[w].count + 1)]
    else m[w := Entry(rec.matchCount, 1)]
  }

  /** `process_letter`: fold a partition's records, in order, into a table. */
  function ProcessLetter(records: seq<Record>): (m: Table)
    ensures forall w :: w in m ==> '_' !in w && Text.IsLower(w) && m[w].count >= 1
  {
    if |records| == 0 then map[]
    else
      var n := |records| - 1;
      Text.LowerIsLower(records[n].ngram);
      AddRecord(ProcessLetter(records[..n]), records[n])
  }

  /** The words of the retained records. */
  function RetainedWords(records: seq<Record>): (ws: set<string>)
  {
    set i | 0 <= i < |records| && Retained(records[i]) :: Word(records[i])
  }

  /** How many records are filed under `w`. */
  function Occurrences(records: seq<Record>, w: string): (n: nat)
  {
    if |records| == 0 then 0
    else Occurrences(records[..|records| - 1], w) + (if Word(records[|records| - 1]) == w then 1 else 0)
  }

  /** The sum of the match counts of the records filed under `w`. */
  function MatchSum(records: seq<Record>, w: string): (total: int)
  {
    if |records| == 0 then 0
    else MatchSum(records[..|records| - 1], w) + (if Word(records[|records| - 1]) == w then records[|records| - 1].matchCount else 0)
  }

  /** The table holds exactly the retained words; each entry counts the
      records filed under its word and sums their match counts. A record
      whose n-gram contains '_' contributes nothing. */
  lemma ProcessLetterSpec(records: seq<Record>)
    ensures ProcessLetter(records).Keys == RetainedWords(records)
    ensures forall w :: w in ProcessLetter(records) ==>
              ProcessLetter(records)[w] == Entry(MatchSum(records, w), Occurrences(records, w))
  {
    ProcessLetterKeys(records);
    ProcessLetterEntries(records);
  }

  lemma {:induction false} ProcessLetterKeys(records: seq<Record>)
    ensures ProcessLetter(records).Keys == RetainedWords(records)
  {
    if |records| > 0 {
      var n := |records| - 1;
      ProcessLetterKeys(records[..n]);
      RetainedWordsStep(records);
    }
  }

  lemma {:induction false} ProcessLetterEntries(records: seq<Record>)
    ensures forall w :: w in ProcessLetter(records) ==>
              ProcessLetter(records)[w] == Entry(MatchSum(records, w), Occurrences(records, w))
  {
    if |records| > 0 {
      var n := |records| - 1;
      var p := records[..n];
      var rec := records[n];
      var prev := ProcessLetter(p);
      var m := ProcessLetter(records);
      ProcessLetterEntries(p);
      assert m == AddRecord(prev, rec);
      forall w | w in m
        ensures m[w] == Entry(MatchSum(records, w), Occurrences(records, w))
      {
        if w !in prev {
          assert w == Word(rec);
          ProcessLetterKeys(p);
          OccurrencesAbsent(p, w);
        }
      }
    }
  }

  /** The retained words of a longer partition: those of the prefix, plus
      the last record's word if it is retained. */
  lemma RetainedWordsStep(records: seq<Record>)
    requires |records| > 0
    ensures var n := |records| - 1;
            RetainedWords(records) == RetainedWords(records[..n]) + (if Retained(records[n]) then {Word(records[n])} else {})
  {
    var n := |records| - 1;
    assert forall i :: 0 <= i < n ==> records[..n][i] == records[i];
  }

  /** A word that no retained record is filed under occurs nowhere. */
  lemma {:induction false} OccurrencesAbsent(records: seq<Record>, w: string)
    requires '_' !in w
    requires w !in RetainedWords(records)
    ensures Occurrences(records, w) == 0 && MatchSum(records, w) == 0
  {
    if |records| > 0 {
      var n := |records| - 1;
      assert RetainedWords(records[..n]) <= RetainedWords(records) by {
        assert forall i :: 0 <= i < n ==> records[..n][i] == records[i];
      }
      OccurrencesAbsent(records[..n], w);
      if Word(records[n]) == w {
        assert Retained(records[n]);
        assert false;
      }
    }
  }

  // ---------------------------------------------------------------------
  // merge_dicts

  function AddEntries(a: Entry, b: Entry): (e: Entry)
  {
    Entry(a.freq + b.freq, a.count + b.count)
  }

  /** One iteration of the outer loop: fold table `d` into `acc`, adding
      into existing words and copying new ones. Each key is updated
      independently of the others, so a map comprehension is the whole
      inner loop. */
  function MergeInto(acc: Table, d: Table): (r: Table)
  {
    map k | k in acc.Keys + d.Keys ::
      if k in acc && k in d then AddEntries(acc[k], d[k])
      else if k in acc then acc[k]
      else d[k]
  }

  /** The two fields of an entry, so that one sum serves both. */
  datatype Field = Freq | Count

  function Get(e: Entry, f: Field): (x: int)
  {
    match f
    case Freq => e.freq
    case Count => e.count
  }

  /** What table `d` adds to field `f` of word `k`. */
  function Contribution(d: Table, k: string, f: Field): (x: int)
  {
    if k in d then Get(d[k], f) else 0
  }

  /** Reference sum: field `f` of word `k`, added up over all the tables. */
  function Sum(ds: seq<Table>, k: string, f: Field): (total: int)
  {
    if |ds| == 0 then 0
    else Sum(ds[..|ds| - 1], k, f) + Contribution(ds[|ds| - 1], k, f)
  }

  /** `r` is the merge of `ds`: its keys are the union of the tables' keys,
      and each entry is the per-word sum over every table holding that word. */
  ghost predicate IsMergeOf(r: Table, ds: seq<Table>)
  {
    && (forall k :: k in r <==> exists i :: 0 <= i < |ds| && k in ds[i])
    && (forall k :: k in r ==> r[k].freq == Sum(ds, k, Freq) && r[k].count == Sum(ds, k, Count))
  }

  /** `merge_dicts`. */
  function MergeDicts(ds: seq<Table>): (r: Table)
    ensures IsMergeOf(r, ds)
  {
    if |ds| == 0 then map[]
    else
      var n := |ds| - 1;
      var prev := MergeDicts(ds[..n]);
      MergeStep(ds[..n], prev, ds[n]);
      assert ds[..n] + [ds[n]] == ds;
      MergeInto(prev, ds[n])
  }

  /** Folding one more table into a merge gives the merge of the longer list. */
  lemma MergeStep(p: seq<Table>, prev: Table, d: Table)
    requires IsMergeOf(prev, p)
    ensures IsMergeOf(MergeInto(prev, d), p + [d])
  {
    MergeStepKeys(p, prev, d);
    MergeStepSums(p, prev, d, Freq);
    MergeStepSums(p, prev, d, Count);
  }

  lemma MergeStepKeys(p: seq<Table>, prev: Table, d: Table)
    requires forall k :: k in prev <==> exists i :: 0 <= i < |p| && k in p[i]
    ensures var ds := p + [d];
            forall k :: k in MergeInto(prev, d) <==> exists i :: 0 <= i < |ds| && k in ds[i]
  {
    var ds := p + [d];
    var r := MergeInto(prev, d);
    forall k ensures k in r <==> exists i :: 0 <= i < |ds| && k in ds[i] {
      if k in prev {
        var i :| 0 <= i < |p| && k in p[i];
        assert ds[i] == p[i];
      } else if k in d {
        assert ds[|p|] == d;
      }
      if exists i :: 0 <= i < |ds| && k in ds[i] {
        var i :| 0 <= i < |ds| && k in ds[i];
        if i < |p| {
          assert ds[i] == p[i];
        } else {
          assert ds[i] == d;
        }
      }
    }
  }

  lemma MergeStepSums(p: seq<Table>, prev: Table, d: Table, f: Field)
    requires IsMergeOf(prev, p)
    ensures var r := MergeInto(prev, d);
            forall k :: k in r ==> Get(r[k], f) == Sum(p + [d], k, f)
  {
    var ds := p + [d];
    var r := MergeInto(prev, d);
    assert ds[..|p|] == p;
    assert ds[|p|] == d;
    forall k | k in r ensures Get(r[k], f) == Sum(ds, k, f) {
      if k !in prev {
        SumOfAbsent(p, k, f);
      }
    }
  }

  lemma {:induction false} SumOfAbsent(ds: seq<Table>, k: string, f: Field)
    requires forall i :: 0 <= i < |ds| ==> k !in ds[i]
    ensures Sum(ds, k, f) == 0
  {
    if |ds| > 0 {
      var n := |ds| - 1;
      assert forall i :: 0 <= i < n ==> ds[..n][i] == ds[i];
      SumOfAbsent(ds[..n], k, f);
    }
  }

  lemma {:induction false} SumConcat(a: seq<Table>, b: seq<Table>, k: string, f: Field)
    ensures Sum(a + b, k, f) == Sum(a, k, f) + Sum(b, k, f)
    decreases |b|
  {
    if |b| == 0 {
      assert a + b == a;
    } else {
      var n := |b| - 1;
      SumConcat(a, b[..n], k, f);
      var ab := a + b;
      assert ab[..|ab| - 1] == a + b[..n];
      assert ab[|ab| - 1] == b[n];
    }
  }

  /** Removing one table takes exactly its contribution out of the sum. */
  lemma SumRemove(ds: seq<Table>, i: nat, k: string, f: Field)
    requires i < |ds|
    ensures Sum(ds, k, f) == Sum(ds[..i] + ds[i + 1..], k, f) + Contribution(ds[i], k, f)
  {
    assert ds == ds[..i] + ([ds[i]] + ds[i + 1..]);
    SumConcat(ds[..i], [ds[i]] + ds[i + 1..], k, f);
    SumConcat([ds[i]], ds[i + 1..], k, f);
    SumConcat(ds[..i], ds[i + 1..], k, f);
    assert [ds[i]][..0] == [];
  }

  /** The per-word sums depend only on which tables are merged, not on the
      order they arrive in. */
  lemma {:induction false} SumPermutation(ds1: seq<Table>, ds2: seq<Table>, k: string, f: Field)
    requires multiset(ds1) == multiset(ds2)
    ensures Sum(ds1, k, f) == Sum(ds2, k, f)
    decreases |ds1|
  {
    if |ds1| == 0 {
      assert |ds2| == |multiset(ds2)| == 0;
    } else {
      var n := |ds1| - 1;
      var x := ds1[n];
      var i :| 0 <= i < |ds2| && ds2[i] == x by {
        assert x in multiset(ds1);
      }
      var rest := ds2[..i] + ds2[i + 1..];
      MultisetRemoveLast(ds1, ds2, i);
      SumPermutation(ds1[..n], rest, k, f);
      SumRemove(ds2, i, k, f);
    }
  }

  /** Taking the last table off one list and the same table off a
      permutation of it leaves two permutations of each other. */
  lemma MultisetRemoveLast(ds1: seq<Table>, ds2: seq<Table>, i: nat)
    requires multiset(ds1) == multiset(ds2)
    requires |ds1| > 0 && i < |ds2| && ds2[i] == ds1[|ds1| - 1]
    ensures multiset(ds1[..|ds1| - 1]) == multiset(ds2[..i] + ds2[i + 1..])
  {
    var n := |ds1| - 1;
    var x := ds1[n];
    assert ds1 == ds1[..n] + [x];
    assert ds2 == ds2[..i] + [x] + ds2[i + 1..];
    assert multiset(ds2[..i] + ds2[i + 1..]) == multiset(ds2) - multiset{x};
  }

  /** merge_dicts is insensitive to the order of its input list. */
  lemma MergeDictsPermutation(ds1: seq<Table>, ds2: seq<Table>)
    requires multiset(ds1) == multiset(ds2)
    ensures MergeDicts(ds1) == MergeDicts(ds2)
  {
    var m1 := MergeDicts(ds1);
    var m2 := MergeDicts(ds2);
    forall k | k in m1 ensures k in m2 {
      var i :| 0 <= i < |ds1| && k in ds1[i];
      assert ds1[i] in multiset(ds2);
    }
    forall k | k in m2 ensures k in m1 {
      var i :| 0 <= i < |ds2| && k in ds2[i];
      assert ds2[i] in multiset(ds1);
    }
    forall k | k in m1 ensures m1[k] == m2[k] {
      SumPermutation(ds1, ds2, k, Freq);
      SumPermutation(ds1, ds2, k, Count);
    }
  }

  /** Merging nothing gives an empty table; merging one table gives that
      table back. */
  lemma MergeDictsSingle(d: Table)
    ensures MergeDicts([]) == map[]
    ensures MergeDicts([d]) == d
  {
  }

  lemma MergeDictsAppendEmpty(ds: seq<Table>)
    ensures MergeDicts(ds + [map[]]) == MergeDicts(ds)
  {
  }

  /** An empty table anywhere in the list changes nothing. */
  lemma MergeDictsInsertEmpty(ds: seq<Table>, i: nat)
    requires i <= |ds|
    ensures MergeDicts(ds[..i] + [map[]] + ds[i..]) == MergeDicts(ds)
  {
    var ds' := ds[..i] + [map[]] + ds[i..];
    assert multiset(ds') == multiset(ds + [map[]]) by {
      assert ds == ds[..i] + ds[i..];
    }
    MergeDictsPermutation(ds', ds + [map[]]);
    MergeDictsAppendEmpty(ds);
  }

  /** Every entry of the table has a positive count. */
  predicate PositiveCounts(m: Table)
  {
    forall k :: k in m ==> m[k].count >= 1
  }

  lemma {:induction false} MergeDictsPositive(ds: seq<Table>)
    requires forall i :: 0 <= i < |ds| ==> PositiveCounts(ds[i])
    ensures PositiveCounts(MergeDicts(ds))
  {
    if |ds| > 0 {
      var n := |ds| - 1;
      MergeDictsPositive(ds[..n]);
      assert MergeDicts(ds) == MergeInto(MergeDicts(ds[..n]), ds[n]);
    }
  }

  // ---------------------------------------------------------------------
  // calculate_relative_freq

  /** `x` is the mean match count of a word with total `freq` over `count`
      records: `count` copies of `x` add up to `freq`. */
  predicate IsMean(x: real, freq: int, count: int)
  {
    x * count as real == freq as real
  }

  /** `calculate_relative_freq` without the rounding: every word maps to its
      mean match count. A zero count makes Python raise ZeroDivisionError. */
  function RelativeFreq(m: Table): (r: Result<map<string, real>, Error>)
    ensures r.Success? <==> forall k :: k in m ==> m[k].count != 0
    ensures r.Success? ==> r.value.Keys == m.Keys
    ensures r.Success? ==> forall k :: k in m ==> IsMean(r.value[k], m[k].freq, m[k].count)
  {
    if exists k :: k in m && m[k].count == 0 then Failure(ZeroDivisionError)
    else Success(map k | k in m :: m[k].freq as real / m[k].count as real)
  }

  // ---------------------------------------------------------------------
  // The driver: fetch every partition, keep the ones that did not raise,
  // merge, reduce.

  /** The partition tables of the fetches that succeeded, in submission
      order. */
  function Collect(fetched: seq<Option<seq<Record>>>): (ts: seq<Table>)
    ensures forall i :: 0 <= i < |ts| ==> PositiveCounts(ts[i])
  {
    if |fetched| == 0 then []
    else
      var n := |fetched| - 1;
      Collect(fetched[..n]) + (if fetched[n].Some? then [ProcessLetter(fetched[n].value)] else [])
  }

  /** Merge the completed partition tables, in completion order, and reduce. */
  function Aggregate(completed: seq<Table>): (r: Result<map<string, real>, Error>)
    ensures r.Failure? <==>
              exists i, k :: 0 <= i < |completed| && k in completed[i] && Sum(completed, k, Count) == 0
    ensures r.Success? ==> forall k :: k in r.value <==> exists i :: 0 <= i < |completed| && k in completed[i]
    ensures r.Success? ==> forall k :: k in r.value ==>
              IsMean(r.value[k], Sum(completed, k, Freq), Sum(completed, k, Count))
  {
    var m := MergeDicts(completed);
    MergedZeroCount(completed, m);
    ZeroCountMerged(completed, m);
    ReducedMergeKeys(completed, m, RelativeFreq(m));
    ReducedMergeValues(completed, m, RelativeFreq(m));
    RelativeFreq(m)
  }

  /** The reduction of a merged table holds the words of the input
      tables ... */
  lemma ReducedMergeKeys(ds: seq<Table>, m: Table, r: Result<map<string, real>, Error>)
    requires IsMergeOf(m, ds) && r == RelativeFreq(m)
    ensures r.Success? ==> forall k :: k in r.value <==> exists i :: 0 <= i < |ds| && k in ds[i]
  {
  }

  /** ... each with its mean match count over all the input tables. */
  lemma ReducedMergeValues(ds: seq<Table>, m: Table, r: Result<map<string, real>, Error>)
    requires IsMergeOf(m, ds) && r == RelativeFreq(m)
    ensures r.Success? ==> forall k :: k in r.value ==>
              IsMean(r.value[k], Sum(ds, k, Freq), Sum(ds, k, Count))
  {
    if r.Success? {
      forall k | k in r.value
        ensures IsMean(r.value[k], Sum(ds, k, Freq), Sum(ds, k, Count))
      {
        assert k in m;
        assert IsMean(r.value[k], m[k].freq, m[k].count);
        assert m[k].count == Sum(ds, k, Count) && m[k].freq == Sum(ds, k, Freq);
      }
    }
  }

  /** A zero count in a merged table is a zero total count of a word of an
      input table ... */
  lemma MergedZeroCount(ds: seq<Table>, m: Table)
    requires IsMergeOf(m, ds)
    ensures (exists k :: k in m && m[k].count == 0) ==>
            (exists i, k :: 0 <= i < |ds| && k in ds[i] && Sum(ds, k, Count) == 0)
  {
    if exists k :: k in m && m[k].count == 0 {
      var k :| k in m && m[k].count == 0;
      var i :| 0 <= i < |ds| && k in ds[i];
      assert 0 <= i < |ds| && k in ds[i] && Sum(ds, k, Count) == 0;
    }
  }

  /** ... and conversely. */
  lemma ZeroCountMerged(ds: seq<Table>, m: Table)
    requires IsMergeOf(m, ds)
    ensures (exists i, k :: 0 <= i < |ds| && k in ds[i] && Sum(ds, k, Count) == 0) ==>
            (exists k :: k in m && m[k].count == 0)
  {
    if exists i, k :: 0 <= i < |ds| && k in ds[i] && Sum(ds, k, Count) == 0 {
      var i, k :| 0 <= i < |ds| && k in ds[i] && Sum(ds, k, Count) == 0;
      assert k in m && m[k].count == 0;
    }
  }

  /** Words some successful partition retained. */
  predicate FetchedWord(fetched: seq<Option<seq<Record>>>, w: string)
  {
    exists i :: 0 <= i < |fetched| && fetched[i].Some? && w in RetainedWords(fetched[i].value)
  }

  lemma {:induction false} CollectKeys(fetched: seq<Option<seq<Record>>>, w: string)
    ensures (exists j :: 0 <= j < |Collect(fetched)| && w in Collect(fetched)[j]) <==> FetchedWord(fetched, w)
  {
    if |fetched| > 0 {
      var n := |fetched| - 1;
      var p := fetched[..n];
      var ts := Collect(fetched);
      var tp := Collect(p);
      CollectKeys(p, w);
      assert forall i :: 0 <= i < n ==> p[i] == fetched[i];
      assert forall j :: 0 <= j < |tp| ==> ts[j] == tp[j];
      if FetchedWord(fetched, w) {
        var i :| 0 <= i < |fetched| && fetched[i].Some? && w in RetainedWords(fetched[i].value);
        if i == n {
          ProcessLetterSpec(fetched[n].value);
          assert ts[|tp|] == ProcessLetter(fetched[n].value);
        } else {
          assert FetchedWord(p, w);
        }
      }
      if exists j :: 0 <= j < |ts| && w in ts[j] {
        var j :| 0 <= j < |ts| && w in ts[j];
        if j == |tp| {
          ProcessLetterSpec(fetched[n].value);
          assert w in RetainedWords(fetched[n].value);
        } else {
          assert 0 <= j < |tp| && w in tp[j];
          assert exists j' :: 0 <= j' < |Collect(p)| && w in Collect(p)[j'];
          assert FetchedWord(p, w);
          var i :| 0 <= i < |p| && p[i].Some? && w in RetainedWords(p[i].value);
          assert fetched[i] == p[i];
        }
      }
    }
  }

  /** Whatever order the completed partitions are collected in, the
      reference table is the same; it never fails, and it holds exactly the
      words retained by the partitions that did not raise, so a failed
      partition's exclusive words are absent. */
  lemma ReferenceTable(fetched: seq<Option<seq<Record>>>, completed: seq<Table>)
    requires multiset(completed) == multiset(Collect(fetched))
    ensures Aggregate(completed) == Aggregate(Collect(fetched))
    ensures Aggregate(completed).Success?
    ensures forall w :: w in Aggregate(completed).value <==> FetchedWord(fetched, w)
  {
    MergeDictsPermutation(completed, Collect(fetched));
    MergeDictsPositive(Collect(fetched));
    forall w ensures w in MergeDicts(Collect(fetched)) <==> FetchedWord(fetched, w) {
      CollectKeys(fetched, w);
    }
  }

  /** Two partitions hold "dog" with {freq 10, count 2} and {freq 5,
      count 1}: the merge holds {freq 15, count 3} and the relative
      frequency is 5. */
  lemma DogScenario()
    ensures MergeDicts([map["dog" := Entry(10, 2)], map["dog" := Entry(5, 1)]]) == map["dog" := Entry(15, 3)]
    ensures Aggregate([map["dog" := Entry(10, 2)], map["dog" := Entry(5, 1)]]) == Success(map["dog" := 5.0])
  {
    var ds := [map["dog" := Entry(10, 2)], map["dog" := Entry(5, 1)]];
    assert ds[..1] == [ds[0]];
    assert [ds[0]][..0] == [];
    var m := MergeDicts(ds);
    assert m.Keys == {"dog"};
    assert Sum(ds, "dog", Freq) == 15 && Sum(ds, "dog", Count) == 3;
    assert m == map["dog" := Entry(15, 3)];
    var r := RelativeFreq(m);
    assert r.Success? && r.value.Keys == {"dog"};
    assert r.value["dog"] * 3.0 == 15.0;
    assert r.value["dog"] == 5.0;
    assert r.value == map["dog" := 5.0];
    assert Aggregate(ds) == r;
  }
}

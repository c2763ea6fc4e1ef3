/** `list.sort(key=lambda x: x[1], reverse=True)` on (word, score) pairs, as
    a functional insertion sort. Python's sort is stable, and `reverse=True`
    keeps equal elements in their original order, so the result is ordered
    by non-increasing score and, within one score, by position in the input.

    Stability is stated per score level: for every score `v`, the pairs
    scoring `v` appear in the output in exactly the order they had in the
    input (`Level(out, v) == Level(in, v)`). */
module StableSort {

  type Scored = (string, real)

  predicate SortedDesc(s: seq<Scored>)
  {
    forall i, j :: 0 <= i < j < |s| ==> s[i].1 >= s[j].1
  }

  /** The pairs of `s` whose score is `v`, in order. */
  function Level(s: seq<Scored>, v: real): (l: seq<Scored>)
  {
    if |s| == 0 then [] else (if s[0].1 == v then [s[0]] else []) + Level(s[1..], v)
  }

  lemma {:induction false} LevelConcat(a: seq<Scored>, b: seq<Scored>, v: real)
    ensures Level(a + b, v) == Level(a, v) + Level(b, v)
  {
    if |a| == 0 {
      assert a + b == b;
    } else {
      var h := if a[0].1 == v then [a[0]] else [];
      LevelConcat(a[1..], b, v);
      assert (a + b)[0] == a[0];
      assert (a + b)[1..] == a[1..] + b;
      assert Level(a + b, v) == h + (Level(a[1..], v) + Level(b, v));
      assert Level(a, v) == h + Level(a[1..], v);
    }
  }

  /** Place `x` after every element scoring at least as much as it. */
  function Insert(t: seq<Scored>, x: Scored): (r: seq<Scored>)
    requires SortedDesc(t)
    ensures |r| == |t| + 1
    ensures SortedDesc(r)
    ensures forall k :: 0 <= k < |r| ==> r[k] == x || r[k] in t
  {
    if |t| == 0 || t[0].1 < x.1 then [x] + t
    else [t[0]] + Insert(t[1..], x)
  }

  /** Inserting `x` into a sorted list puts it last among its score level. */
  lemma {:induction false} InsertLevel(t: seq<Scored>, x: Scored, v: real)
    requires SortedDesc(t)
    ensures Level(Insert(t, x), v) == Level(t, v) + (if x.1 == v then [x] else [])
  {
    var xs := if x.1 == v then [x] else [];
    if |t| == 0 {
      assert [x][1..] == [];
    } else if t[0].1 < x.1 {
      if x.1 == v {
        LevelBelow(t, v);
      }
      LevelCons(x, t, v);
    } else {
      var h := if t[0].1 == v then [t[0]] else [];
      var r := Insert(t[1..], x);
      calc {
        Level(Insert(t, x), v);
        Level([t[0]] + r, v);
        { LevelCons(t[0], r, v); }
        h + Level(r, v);
        { InsertLevel(t[1..], x, v); }
        h + (Level(t[1..], v) + xs);
        (h + Level(t[1..], v)) + xs;
        { LevelCons(t[0], t[1..], v); assert t == [t[0]] + t[1..]; }
        Level(t, v) + xs;
      }
    }
  }

  lemma LevelCons(x: Scored, t: seq<Scored>, v: real)
    ensures Level([x] + t, v) == (if x.1 == v then [x] else []) + Level(t, v)
  {
    assert ([x] + t)[1..] == t;
  }

  /** In a sorted list headed by a score below `v`, nothing scores `v`. */
  lemma {:induction false} LevelBelow(t: seq<Scored>, v: real)
    requires SortedDesc(t)
    requires |t| > 0 && t[0].1 < v
    ensures Level(t, v) == []
  {
    if |t| > 1 {
      LevelBelow(t[1..], v);
    }
  }

  /** The stable descending sort. */
  function Sort(s: seq<Scored>): (r: seq<Scored>)
    ensures |r| == |s|
    ensures SortedDesc(r)
  {
    if |s| == 0 then [] else Insert(Sort(s[..|s| - 1]), s[|s| - 1])
  }

  /** Stability: every score level keeps its input order. */
  lemma {:induction false} SortStable(s: seq<Scored>, v: real)
    ensures Level(Sort(s), v) == Level(s, v)
  {
    if |s| > 0 {
      var n := |s| - 1;
      SortStable(s[..n], v);
      InsertLevel(Sort(s[..n]), s[n], v);
      LevelSnoc(s, v);
    }
  }

  /** The level of a list is the level of all but its last element, then
      the last element if it scores `v`. */
  lemma LevelSnoc(s: seq<Scored>, v: real)
    requires |s| > 0
    ensures Level(s, v) == Level(s[..|s| - 1], v) + (if s[|s| - 1].1 == v then [s[|s| - 1]] else [])
  {
    var n := |s| - 1;
    var x := s[n];
    assert Level([x], v) == (if x.1 == v then [x] else []) by {
      assert [x][1..] == [];
    }
    LevelConcat(s[..n], [x], v);
    assert s[..n] + [x] == s;
  }

  /** Each element of `s` is counted in its own score level. */
  lemma {:induction false} LevelMultiplicity(s: seq<Scored>, x: Scored)
    ensures multiset(s)[x] == multiset(Level(s, x.1))[x]
  {
    if |s| > 0 {
      LevelMultiplicity(s[1..], x);
      assert s == [s[0]] + s[1..];
    }
  }

  /** Lists that agree on every score level are permutations of each other. */
  lemma SameLevelsSameMultiset(a: seq<Scored>, b: seq<Scored>)
    requires forall v :: Level(a, v) == Level(b, v)
    ensures multiset(a) == multiset(b)
  {
    forall x ensures multiset(a)[x] == multiset(b)[x] {
      LevelMultiplicity(a, x);
      LevelMultiplicity(b, x);
    }
  }

  /** The sort is a permutation of its input. */
  lemma SortPermutes(s: seq<Scored>)
    ensures multiset(Sort(s)) == multiset(s)
  {
    forall v ensures Level(Sort(s), v) == Level(s, v) {
      SortStable(s, v);
    }
    SameLevelsSameMultiset(Sort(s), s);
  }

  lemma {:induction false} LevelOfSortedHead(a: seq<Scored>)
    requires SortedDesc(a) && |a| > 0
    ensures Level(a, a[0].1) == [a[0]] + Level(a[1..], a[0].1)
  {
  }

  /** The head of a sorted list scores at least as much as any element. */
  lemma {:induction false} HeadIsMax(a: seq<Scored>, x: Scored)
    requires SortedDesc(a)
    requires x in a
    ensures x.1 <= a[0].1
  {
  }

  /** Sortedness and stability pin the result down: any two sorted lists
      that agree on every score level are equal. So `Sort` is the only
      function meeting the contract of Python's stable `sort`. */
  lemma {:induction false} SortedLevelsUnique(a: seq<Scored>, b: seq<Scored>)
    requires SortedDesc(a) && SortedDesc(b)
    requires forall v :: Level(a, v) == Level(b, v)
    ensures a == b
    decreases |a|
  {
    SameLevelsSameMultiset(a, b);
    if |a| == 0 {
      assert |b| == |multiset(b)| == 0;
    } else {
      assert |b| == |multiset(b)| == |a|;
      assert a[0] in multiset(b) && b[0] in multiset(a);
      HeadIsMax(b, a[0]);
      HeadIsMax(a, b[0]);
      var m := a[0].1;
      assert b[0].1 == m;
      LevelOfSortedHead(a);
      LevelOfSortedHead(b);
      assert a[0] == Level(a, m)[0] == Level(b, m)[0] == b[0];
      forall v ensures Level(a[1..], v) == Level(b[1..], v) {
        assert a == [a[0]] + a[1..];
        assert b == [b[0]] + b[1..];
        LevelConcat([a[0]], a[1..], v);
        LevelConcat([b[0]], b[1..], v);
        var h := Level([a[0]], v);
        assert Level(a[1..], v) == (h + Level(a[1..], v))[|h|..];
        assert Level(b[1..], v) == (h + Level(b[1..], v))[|h|..];
      }
      SortedLevelsUnique(a[1..], b[1..]);
      assert a == [a[0]] + a[1..];
      assert b == [b[0]] + b[1..];
    }
  }
}

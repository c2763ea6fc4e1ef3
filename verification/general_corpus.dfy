/** The general-table load at the top of
    `extract_important_words_by_weirdness` (extract_words.py): every row of
    the `;`-delimited file is either skipped or stored under its word, and
    its value is added to the running total `tg`.

    The file and the CSV reader are abstracted as the sequence of rows the
    reader yields; `float(...)` is the parameter `parse`, which answers
    `None` where Python raises ValueError. */
module GeneralCorpus {
  import opened Wrappers

  type Parser = string -> Option<real>

  /** `general_freqs` together with the running total `tg`. */
  datatype GeneralTable = GeneralTable(freqs: map<string, real>, tg: real)

  /** A row survives both `continue`s: exactly two fields, and a second
      field that parses as a number. */
  predicate Valid(row: seq<string>, parse: Parser)
  {
    |row| == 2 && parse(row[1]).Some?
  }

  function Value(row: seq<string>, parse: Parser): (v: real)
    requires Valid(row, parse)
  {
    parse(row[1]).value
  }

  /** One iteration of the row loop. */
  function AddRow(g: GeneralTable, row: seq<string>, parse: Parser): (g': GeneralTable)
  {
    if !Valid(row, parse) then g
    else GeneralTable(g.freqs[row[0] := Value(row, parse)], g.tg + Value(row, parse))
  }

  /** Row `i` is the last valid row whose word is `w`. */
  predicate LastValidFor(rows: seq<seq<string>>, parse: Parser, w: string, i: int)
  {
    && 0 <= i < |rows|
    && Valid(rows[i], parse) && rows[i][0] == w
    && forall j :: i < j < |rows| && Valid(rows[j], parse) ==> rows[j][0] != w
  }

  /** Reference total: the values of the valid rows, added up. */
  function Mass(rows: seq<seq<string>>, parse: Parser): (total: real)
  {
    if |rows| == 0 then 0.0
    else
      var last := rows[|rows| - 1];
      Mass(rows[..|rows| - 1], parse) + (if Valid(last, parse) then Value(last, parse) else 0.0)
  }

  /** `g` is what loading `rows` gives: the table holds the word of every
      valid row, mapped to the value of the LAST valid row with that word;
      `tg` adds the value of EVERY valid row, duplicates included. */
  ghost predicate IsLoadOf(g: GeneralTable, rows: seq<seq<string>>, parse: Parser)
  {
    && (forall w :: w in g.freqs <==> exists i :: 0 <= i < |rows| && Valid(rows[i], parse) && rows[i][0] == w)
    && (forall w :: w in g.freqs ==> exists i :: LastValidFor(rows, parse, w, i) && g.freqs[w] == Value(rows[i], parse))
    && g.tg == Mass(rows, parse)
  }

  /** A word has at most one last valid row. */
  lemma LastValidUnique(rows: seq<seq<string>>, parse: Parser, w: string, i: int, j: int)
    requires LastValidFor(rows, parse, w, i) && LastValidFor(rows, parse, w, j)
    ensures i == j
  {
  }

  /** The load loop. */
  function Load(rows: seq<seq<string>>, parse: Parser): (g: GeneralTable)
    ensures IsLoadOf(g, rows, parse)
  {
    if |rows| == 0 then GeneralTable(map[], 0.0)
    else
      var n := |rows| - 1;
      var prev := Load(rows[..n], parse);
      LoadStep(rows[..n], prev, rows[n], parse);
      assert rows[..n] + [rows[n]] == rows;
      AddRow(prev, rows[n], parse)
  }

  /** One more row read extends a load of the rows before it. */
  lemma LoadStep(p: seq<seq<string>>, prev: GeneralTable, row: seq<string>, parse: Parser)
    requires IsLoadOf(prev, p, parse)
    ensures IsLoadOf(AddRow(prev, row, parse), p + [row], parse)
  {
    LoadStepKeys(p, prev, row, parse);
    LoadStepValues(p, prev, row, parse);
    assert (p + [row])[..|p|] == p;
  }

  lemma LoadStepKeys(p: seq<seq<string>>, prev: GeneralTable, row: seq<string>, parse: Parser)
    requires forall w :: w in prev.freqs <==> exists i :: 0 <= i < |p| && Valid(p[i], parse) && p[i][0] == w
    ensures var rows := p + [row];
            forall w :: w in AddRow(prev, row, parse).freqs <==>
              exists i :: 0 <= i < |rows| && Valid(rows[i], parse) && rows[i][0] == w
  {
    var rows := p + [row];
    var g := AddRow(prev, row, parse);
    assert forall w :: w in g.freqs <==> w in prev.freqs || (Valid(row, parse) && row[0] == w);
    forall w ensures w in g.freqs <==> exists i :: 0 <= i < |rows| && Valid(rows[i], parse) && rows[i][0] == w {
      if w in prev.freqs {
        var i :| 0 <= i < |p| && Valid(p[i], parse) && p[i][0] == w;
        assert rows[i] == p[i];
      } else if Valid(row, parse) && row[0] == w {
        assert rows[|p|] == row;
      }
      if exists i :: 0 <= i < |rows| && Valid(rows[i], parse) && rows[i][0] == w {
        var i :| 0 <= i < |rows| && Valid(rows[i], parse) && rows[i][0] == w;
        if i < |p| {
          assert rows[i] == p[i];
          assert w in prev.freqs;
        } else {
          assert rows[i] == row;
        }
      }
    }
  }

  lemma LoadStepValues(p: seq<seq<string>>, prev: GeneralTable, row: seq<string>, parse: Parser)
    requires forall w :: w in prev.freqs ==> exists i :: LastValidFor(p, parse, w, i) && prev.freqs[w] == Value(p[i], parse)
    ensures var rows := p + [row];
            var g := AddRow(prev, row, parse);
            forall w :: w in g.freqs ==> exists i :: LastValidFor(rows, parse, w, i) && g.freqs[w] == Value(rows[i], parse)
  {
    var rows := p + [row];
    var g := AddRow(prev, row, parse);
    var n := |p|;
    forall w | w in g.freqs
      ensures exists i :: LastValidFor(rows, parse, w, i) && g.freqs[w] == Value(rows[i], parse)
    {
      if Valid(row, parse) && row[0] == w {
        assert LastValidFor(rows, parse, w, n);
      } else {
        var i :| LastValidFor(p, parse, w, i) && prev.freqs[w] == Value(p[i], parse);
        assert forall j :: 0 <= j < n ==> rows[j] == p[j];
        assert LastValidFor(rows, parse, w, i);
      }
    }
  }

  /** The valid rows, in order. */
  function ValidRows(rows: seq<seq<string>>, parse: Parser): (r: seq<seq<string>>)
    ensures forall k :: 0 <= k < |r| ==> Valid(r[k], parse)
  {
    if |rows| == 0 then []
    else
      var n := |rows| - 1;
      ValidRows(rows[..n], parse) + (if Valid(rows[n], parse) then [rows[n]] else [])
  }

  /** Skipped rows change neither the table nor `tg`: loading only the
      valid rows gives the same result. */
  lemma {:induction false} LoadIgnoresInvalidRows(rows: seq<seq<string>>, parse: Parser)
    ensures Load(rows, parse) == Load(ValidRows(rows, parse), parse)
  {
    if |rows| > 0 {
      var n := |rows| - 1;
      var vp := ValidRows(rows[..n], parse);
      LoadIgnoresInvalidRows(rows[..n], parse);
      if Valid(rows[n], parse) {
        var v := vp + [rows[n]];
        assert v[..|v| - 1] == vp;
        assert Load(v, parse) == AddRow(Load(vp, parse), rows[n], parse);
      } else {
        assert ValidRows(rows, parse) == vp;
      }
    }
  }

  /** Two valid rows for the same word: the table keeps the second value,
      `tg` counts both, so `tg` differs from the sum of the table's values. */
  lemma DuplicateWordCountedTwice()
    ensures var parse: Parser := s => if s == "1" then Some(1.0) else if s == "2" then Some(2.0) else None;
            var g := Load([["a", "1"], ["a", "2"]], parse);
            g.freqs == map["a" := 2.0] && g.tg == 3.0
  {
  }
}

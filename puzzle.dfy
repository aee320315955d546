/** The su clue format both loaders read: one board row per non-blank line,
    whitespace-separated tokens, a placeholder token for an empty cell and
    a decimal number for a clue. A load yields the clues as
    ((row, column), value) entries in reading order; a token that is no
    placeholder and does not read as an integer makes the load fail (None).

    The file is given as the sequence of its lines. The two loaders differ
    only in which tokens they take for placeholders: the package's accepts
    any substring of "_0.", the older one exactly "_" and "0". */
module Puzzles {
  import opened Wrappers
  import opened Grid
  import opened Text

  datatype Dialect = Package | Early

  /** The package's placeholder test `token not in "_0."`: Python's `in` on
      strings is the substring test. */
  predicate PackageBlank(token: string)
  {
    token in {"", "_", "0", ".", "_0", "0.", "_0."}
  }

  /** The older loader's test `token == "_" or token == "0"`. */
  predicate EarlyBlank(token: string)
  {
    token == "_" || token == "0"
  }

  predicate Skips(d: Dialect, token: string)
  {
    match d
    case Package => PackageBlank(token)
    case Early => EarlyBlank(token)
  }

  /** The placeholder set of the package is exactly the substrings of "_0.". */
  lemma PackageBlankSubstrings(token: string)
    ensures PackageBlank(token) <==> exists i, j | 0 <= i <= j <= 3 :: token == "_0."[i..j]
  {
    var w := "_0.";
    if PackageBlank(token) {
      if token == "" { assert token == w[0..0]; }
      else if token == "_" { assert token == w[0..1]; }
      else if token == "0" { assert token == w[1..2]; }
      else if token == "." { assert token == w[2..3]; }
      else if token == "_0" { assert token == w[0..2]; }
      else if token == "0." { assert token == w[1..3]; }
      else { assert token == w[0..3]; }
    }
    forall i, j | 0 <= i <= j <= 3 ensures PackageBlank(w[i..j]) {
      if i == j {
        assert w[i..j] == "";
      } else if i == 0 && j == 1 {
        assert w[i..j] == "_";
      } else if i == 0 && j == 2 {
        assert w[i..j] == "_0";
      } else if i == 0 {
        assert w[i..j] == "_0.";
      } else if i == 1 && j == 2 {
        assert w[i..j] == "0";
      } else if i == 1 {
        assert w[i..j] == "0.";
      } else {
        assert w[i..j] == ".";
      }
    }
  }

  /** Every placeholder of the older loader is one of the package's; "."
      and the two-character placeholders only the package skips. */
  lemma EarlyBlankNarrower(token: string)
    ensures EarlyBlank(token) ==> PackageBlank(token)
    ensures token == "." ==> PackageBlank(token) && !EarlyBlank(token)
  {
  }

  /** What a token of a line stands for: a placeholder, a clue number, or
      text `int` rejects. */
  datatype Reading = Blank | Number(n: int) | Bad

  function Read(d: Dialect, token: string): (r: Reading)
    ensures r.Blank? <==> Skips(d, token)
    ensures r.Number? <==> !Skips(d, token) && ParseInt(token).Some?
    ensures r.Number? ==> ParseInt(token) == Some(r.n)
  {
    if Skips(d, token) then Blank
    else match ParseInt(token)
      case None => Bad
      case Some(n) => Number(n)
  }

  /** The readings of the whitespace-separated tokens of a line. */
  function Readings(d: Dialect, line: string): (rs: seq<Reading>)
    ensures |rs| == |Words(line)|
  {
    var ts := Words(line);
    seq(|ts|, c requires 0 <= c < |ts| => Read(d, ts[c]))
  }

  /** `filter(None, ...)` over lines already stripped: the empty ones are
      dropped. */
  function Kept(ss: seq<string>): (ls: seq<string>)
    ensures |ls| <= |ss|
    ensures forall i | 0 <= i < |ls| :: ls[i] != []
    decreases |ss|
  {
    if ss == [] then []
    else
      var prev := Kept(ss[..|ss| - 1]);
      var line := ss[|ss| - 1];
      if line == [] then prev else prev + [line]
  }

  /** `map(str.strip, lines)`. */
  function Stripped(lines: seq<string>): (ss: seq<string>)
    ensures |ss| == |lines|
    decreases |lines|
  {
    if lines == [] then [] else Stripped(lines[..|lines| - 1]) + [Strip(lines[|lines| - 1])]
  }

  /** `filter(None, map(str.strip, lines))`: the stripped lines, with the
      ones that strip to nothing dropped. */
  function NonBlank(lines: seq<string>): seq<string>
  {
    Kept(Stripped(lines))
  }

  /** The entries of one row's readings, in column order: the column is
      the token's position among all the tokens of the line. */
  function TokenEntries(row: nat, rs: seq<Reading>): (r: Option<seq<Entry>>)
    ensures r.Some? <==> forall c | 0 <= c < |rs| :: !rs[c].Bad?
    decreases |rs|
  {
    if rs == [] then Some([])
    else
      var c := |rs| - 1;
      var prev := TokenEntries(row, rs[..c]);
      assert forall q | 0 <= q < c :: rs[..c][q] == rs[q];
      if prev.None? then None
      else match rs[c]
        case Bad => None
        case Blank => prev
        case Number(n) => Some(prev.value + [Entry(Coord(row, c), n)])
  }

  /** The entries of a row are exactly its numbers: each entry is in the
      row, at the column of a number token and with that number as value;
      the columns increase; and every number token has its entry. */
  lemma {:induction false} TokenEntriesFacts(row: nat, rs: seq<Reading>)
    requires TokenEntries(row, rs).Some?
    ensures var es := TokenEntries(row, rs).value;
      && (forall q | 0 <= q < |es| ::
            && es[q].coord.row == row
            && 0 <= es[q].coord.column < |rs|
            && rs[es[q].coord.column] == Number(es[q].value))
      && (forall p, q | 0 <= p < q < |es| :: es[p].coord.column < es[q].coord.column)
      && (forall c | 0 <= c < |rs| && rs[c].Number? :: exists q | 0 <= q < |es| :: es[q].coord.column == c)
    decreases |rs|
  {
    if rs != [] {
      var c := |rs| - 1;
      TokenEntriesFacts(row, rs[..c]);
      EntriesSnoc(row, rs, TokenEntries(row, rs[..c]).value, TokenEntries(row, rs).value);
    }
  }

  /** es lists the numbers of the readings rs of the row, in column order. */
  ghost predicate EntriesOf(row: nat, rs: seq<Reading>, es: seq<Entry>)
  {
    && (forall q | 0 <= q < |es| ::
          && es[q].coord.row == row
          && 0 <= es[q].coord.column < |rs|
          && rs[es[q].coord.column] == Number(es[q].value))
    && (forall p, q | 0 <= p < q < |es| :: es[p].coord.column < es[q].coord.column)
    && (forall c | 0 <= c < |rs| && rs[c].Number? :: exists q | 0 <= q < |es| :: es[q].coord.column == c)
  }

  /** One more reading at the end of the row. */
  lemma EntriesSnoc(row: nat, rs: seq<Reading>, prev: seq<Entry>, es: seq<Entry>)
    requires rs != [] && EntriesOf(row, rs[..|rs| - 1], prev)
    requires var c := |rs| - 1;
      es == if rs[c].Number? then prev + [Entry(Coord(row, c), rs[c].n)] else prev
    ensures EntriesOf(row, rs, es)
  {
    var c := |rs| - 1;
    if rs[c].Number? {
      NumberSnoc(row, rs, prev, es);
    } else {
      var front := rs[..c];
      assert forall q | 0 <= q < c :: front[q] == rs[q];
    }
  }

  /** A number at the end of the row adds its entry last. */
  lemma NumberSnoc(row: nat, rs: seq<Reading>, prev: seq<Entry>, es: seq<Entry>)
    requires rs != [] && EntriesOf(row, rs[..|rs| - 1], prev)
    requires var c := |rs| - 1;
      rs[c].Number? && es == prev + [Entry(Coord(row, c), rs[c].n)]
    ensures EntriesOf(row, rs, es)
  {
    var c := |rs| - 1;
    var front := rs[..c];
    assert forall q | 0 <= q < c :: front[q] == rs[q];
    assert forall q | 0 <= q < |prev| :: es[q] == prev[q];
    assert forall q | 0 <= q < |es| ::
      && es[q].coord.row == row
      && 0 <= es[q].coord.column < |rs|
      && rs[es[q].coord.column] == Number(es[q].value);
    assert forall p, q | 0 <= p < q < |es| :: es[p].coord.column < es[q].coord.column;
    forall c' | 0 <= c' < |rs| && rs[c'].Number?
      ensures exists q | 0 <= q < |es| :: es[q].coord.column == c'
    {
      if c' == c {
        assert es[|es| - 1].coord.column == c;
      } else {
        assert front[c'].Number?;
        var q :| 0 <= q < |prev| && prev[q].coord.column == c';
        assert es[q].coord.column == c';
      }
    }
  }

  /** The entries of the rows of readings, row after row. */
  function Rows(rows: seq<seq<Reading>>): (r: Option<seq<Entry>>)
    ensures r.Some? ==> forall q | 0 <= q < |r.value| :: 0 <= r.value[q].coord.row < |rows|
    decreases |rows|
  {
    if rows == [] then Some([])
    else
      var prev := Rows(rows[..|rows| - 1]);
      var here := TokenEntries(|rows| - 1, rows[|rows| - 1]);
      if prev.None? || here.None? then None
      else
        TokenEntriesFacts(|rows| - 1, rows[|rows| - 1]);
        var es := prev.value + here.value;
        assert forall q | 0 <= q < |es| :: es[q] == if q < |prev.value| then prev.value[q] else here.value[q - |prev.value|];
        Some(es)
  }

  /** The readings of the lines ls, one row per line. */
  function Lexed(d: Dialect, ls: seq<string>): (rows: seq<seq<Reading>>)
    ensures |rows| == |ls|
  {
    seq(|ls|, r requires 0 <= r < |ls| => Readings(d, ls[r]))
  }

  /** `load_su` of a file with the given lines. */
  function Marking(d: Dialect, lines: seq<string>): Option<seq<Entry>>
  {
    Rows(Lexed(d, NonBlank(lines)))
  }

  // ---------------------------------------------------------------------
  // The loaders.

  /** `pysudoku.puzzle.load_su`: rows and columns from `enumerate`, the
      function returns the marking or None where `int` raises. */
  method LoadSu(lines: seq<string>) returns (r: Option<seq<Entry>>)
    ensures r == Marking(Package, lines)
  {
    r := Load(Package, lines);
  }

  /** The older `load_su`, which counts rows and columns itself and skips
      only "_" and "0". */
  method EarlyLoadSu(lines: seq<string>) returns (r: Option<seq<Entry>>)
    ensures r == Marking(Early, lines)
  {
    r := Load(Early, lines);
  }

  /** The loop both loaders share: over the non-blank stripped lines with a
      row counter, over each line's tokens with a column counter that also
      counts placeholders. */
  method Load(d: Dialect, lines: seq<string>) returns (r: Option<seq<Entry>>)
    ensures r == Marking(d, lines)
  {
    var marking: seq<Entry> := [];
    var row := 0;
    var i := 0;
    while i < |lines|
      invariant 0 <= i <= |lines|
      invariant row == |NonBlank(lines[..i])|
      invariant Rows(Lexed(d, NonBlank(lines[..i]))) == Some(marking)
    {
      var line := Strip(lines[i]);
      LoadStep(d, lines, i);
      if line != [] {
        var got := ReadLine(d, row, line);
        if got.None? {
          MarkingStops(d, lines, i + 1);
          return None;
        }
        marking := marking + got.value;
        row := row + 1;
      }
      i := i + 1;
    }
    assert lines[..i] == lines;
    return Some(marking);
  }

  /** The tokens of one line, with the column counter. */
  method ReadLine(d: Dialect, row: nat, line: string) returns (r: Option<seq<Entry>>)
    ensures r == TokenEntries(row, Readings(d, line))
  {
    var tokens := Words(line);
    ghost var rs := Readings(d, line);
    var found: seq<Entry> := [];
    var column := 0;
    while column < |tokens|
      invariant 0 <= column <= |tokens|
      invariant TokenEntries(row, rs[..column]) == Some(found)
    {
      assert rs[..column + 1][..column] == rs[..column];
      var token := tokens[column];
      assert rs[column] == Read(d, token);
      if !Skips(d, token) {
        var n := ParseInt(token);
        if n.None? {
          TokensStop(row, rs, column + 1);
          return None;
        }
        found := found + [Entry(Coord(row, column), n.value)];
      }
      column := column + 1;
    }
    assert rs[..column] == rs;
    return Some(found);
  }

  // ---------------------------------------------------------------------
  // Steps and early exits.

  /** The readings of a longer list of lines extend those of its front. */
  lemma LexedStep(d: Dialect, ls: seq<string>)
    requires ls != []
    ensures Lexed(d, ls)[..|ls| - 1] == Lexed(d, ls[..|ls| - 1])
    ensures Lexed(d, ls)[|ls| - 1] == Readings(d, ls[|ls| - 1])
  {
  }

  /** One more line of the file: a blank one leaves the rows as they are, a
      non-blank one adds the row of its readings. */
  lemma LoadStep(d: Dialect, lines: seq<string>, i: nat)
    requires i < |lines|
    ensures Strip(lines[i]) == [] ==> NonBlank(lines[..i + 1]) == NonBlank(lines[..i])
    ensures Strip(lines[i]) != [] ==> |NonBlank(lines[..i + 1])| == |NonBlank(lines[..i])| + 1
    ensures Strip(lines[i]) != [] ==>
      (Rows(Lexed(d, NonBlank(lines[..i + 1]))) ==
        var prev := Rows(Lexed(d, NonBlank(lines[..i])));
        var here := TokenEntries(|NonBlank(lines[..i])|, Readings(d, Strip(lines[i])));
        if prev.None? || here.None? then None else Some(prev.value + here.value))
  {
    var front := lines[..i + 1];
    assert front[..i] == lines[..i] && front[i] == lines[i];
    var ss := Stripped(front);
    assert ss == Stripped(lines[..i]) + [Strip(lines[i])];
    if Strip(lines[i]) != [] {
      var ls := Kept(ss);
      assert ls == NonBlank(lines[..i]) + [Strip(lines[i])];
      LexedStep(d, ls);
    }
  }

  /** A token that fails fails every longer line. */
  lemma TokensStop(row: nat, rs: seq<Reading>, n: nat)
    requires n <= |rs| && TokenEntries(row, rs[..n]).None?
    ensures TokenEntries(row, rs).None?
  {
    var c :| 0 <= c < n && rs[..n][c].Bad?;
    assert rs[..n][c] == rs[c];
  }

  /** A row that fails fails every longer list of rows. */
  lemma {:induction false} RowsStop(rows: seq<seq<Reading>>, more: seq<seq<Reading>>)
    requires Rows(rows).None?
    ensures Rows(rows + more).None?
    decreases |more|
  {
    if more != [] {
      var all := rows + more;
      var front := more[..|more| - 1];
      RowsStop(rows, front);
      assert all[..|all| - 1] == rows + front;
      assert Rows(all[..|all| - 1]).None?;
    } else {
      assert rows + more == rows;
    }
  }

  /** Filtering distributes over concatenation. */
  lemma {:induction false} KeptAppend(a: seq<string>, b: seq<string>)
    ensures Kept(a + b) == Kept(a) + Kept(b)
    decreases |b|
  {
    if b == [] {
      assert a + b == a;
    } else {
      var front := b[..|b| - 1];
      KeptAppend(a, front);
      assert (a + b)[..|a + b| - 1] == a + front;
    }
  }

  lemma LexedAppend(d: Dialect, a: seq<string>, b: seq<string>)
    ensures Lexed(d, a + b) == Lexed(d, a) + Lexed(d, b)
  {
  }

  lemma MarkingStops(d: Dialect, lines: seq<string>, i: nat)
    requires i <= |lines| && Rows(Lexed(d, NonBlank(lines[..i]))).None?
    ensures Marking(d, lines).None?
  {
    assert lines == lines[..i] + lines[i..];
    StrippedAppend(lines[..i], lines[i..]);
    KeptAppend(Stripped(lines[..i]), Stripped(lines[i..]));
    LexedAppend(d, NonBlank(lines[..i]), NonBlank(lines[i..]));
    RowsStop(Lexed(d, NonBlank(lines[..i])), Lexed(d, NonBlank(lines[i..])));
  }

  /** Stripping distributes over concatenation. */
  lemma StrippedAppend(a: seq<string>, b: seq<string>)
    ensures Stripped(a + b) == Stripped(a) + Stripped(b)
  {
    var ab := a + b;
    forall i | 0 <= i < |ab| ensures Stripped(ab)[i] == (Stripped(a) + Stripped(b))[i] {
      StrippedAt(ab, i);
      if i < |a| {
        StrippedAt(a, i);
      } else {
        StrippedAt(b, i - |a|);
      }
    }
  }

  /** Each stripped line is its line, stripped. */
  lemma {:induction false} StrippedAt(lines: seq<string>, i: nat)
    requires i < |lines|
    ensures Stripped(lines)[i] == Strip(lines[i])
    decreases |lines|
  {
    var front := lines[..|lines| - 1];
    if i < |front| {
      StrippedAt(front, i);
      assert front[i] == lines[i];
    }
  }

  // ---------------------------------------------------------------------
  // Properties of the format.

  /** A line of whitespace anywhere in the file changes nothing: it is
      dropped before the rows are numbered. */
  lemma BlankLineIgnored(d: Dialect, a: seq<string>, b: string, c: seq<string>)
    requires Strip(b) == []
    ensures Marking(d, a + [b] + c) == Marking(d, a + c)
  {
    StrippedAppend(a + [b], c);
    StrippedAppend(a, [b]);
    StrippedAppend(a, c);
    assert Stripped([b]) == [[]] by { assert [b][..0] == []; }
    KeptAppend(Stripped(a) + [[]], Stripped(c));
    KeptAppend(Stripped(a), [[]]);
    KeptAppend(Stripped(a), Stripped(c));
    var blank: seq<string> := [[]];
    assert Kept(blank) == [] by { assert blank[..0] == []; }
  }

  /** A successful load lists its entries in reading order: by row, and by
      column inside a row. */
  lemma {:induction false} MarkingOrdered(rows: seq<seq<Reading>>)
    requires Rows(rows).Some?
    ensures forall p, q | 0 <= p < q < |Rows(rows).value| :: Before(Rows(rows).value[p].coord, Rows(rows).value[q].coord)
    decreases |rows|
  {
    if rows != [] {
      var front := rows[..|rows| - 1];
      MarkingOrdered(front);
      var prev := Rows(front).value;
      var here := TokenEntries(|rows| - 1, rows[|rows| - 1]).value;
      TokenEntriesFacts(|rows| - 1, rows[|rows| - 1]);
      var es := Rows(rows).value;
      assert es == prev + here;
      forall p, q | 0 <= p < q < |es| ensures Before(es[p].coord, es[q].coord) {
        if q < |prev| {
          assert es[p] == prev[p] && es[q] == prev[q];
        } else if p < |prev| {
          assert es[p] == prev[p] && es[q] == here[q - |prev|];
        } else {
          assert es[p] == here[p - |prev|] && es[q] == here[q - |prev|];
        }
      }
    }
  }

  /** The loaders' results are in reading order. */
  lemma LoadOrdered(d: Dialect, lines: seq<string>)
    requires Marking(d, lines).Some?
    ensures forall p, q | 0 <= p < q < |Marking(d, lines).value| ::
      Before(Marking(d, lines).value[p].coord, Marking(d, lines).value[q].coord)
  {
    MarkingOrdered(Lexed(d, NonBlank(lines)));
  }

  /** The two loaders read a file alike unless it holds one of the
      placeholders only the package knows. */
  lemma DialectsAgree(lines: seq<string>)
    requires forall r, c | 0 <= r < |NonBlank(lines)| && 0 <= c < |Words(NonBlank(lines)[r])| ::
      !(Words(NonBlank(lines)[r])[c] in {".", "_0", "0.", "_0."})
    ensures Marking(Package, lines) == Marking(Early, lines)
  {
    var ls := NonBlank(lines);
    forall r | 0 <= r < |ls| ensures Lexed(Package, ls)[r] == Lexed(Early, ls)[r] {
      var ts := Words(ls[r]);
      forall c | 0 <= c < |ts| ensures Read(Package, ts[c]) == Read(Early, ts[c]) {
        assert !(ts[c] in {".", "_0", "0.", "_0."});
      }
      assert Readings(Package, ls[r]) == Readings(Early, ls[r]);
    }
    assert Lexed(Package, ls) == Lexed(Early, ls);
  }

  /** Row-major order on coordinates. */
  predicate Before(a: Coord, b: Coord)
  {
    a.row < b.row || (a.row == b.row && a.column < b.column)
  }

  // ---------------------------------------------------------------------
  // Clue files written from a grid read back.

  /** The tokens of a row of numbers: `str` of each. */
  function RowTokens(vals: seq<int>): (ts: seq<string>)
    ensures |ts| == |vals|
  {
    seq(|vals|, i requires 0 <= i < |vals| => IntToString(vals[i]))
  }

  /** A row of the grid as a line: the numbers joined by single spaces. */
  function RowText(vals: seq<int>): string
  {
    Join(RowTokens(vals), " ")
  }

  /** The lines of a grid, one per row, 0 marking an empty cell. */
  function GridText(rows: seq<seq<int>>): (lines: seq<string>)
    ensures |lines| == |rows|
  {
    seq(|rows|, r requires 0 <= r < |rows| => RowText(rows[r]))
  }

  /** What the loader should read for a row of numbers: 0 is a placeholder. */
  function ValueReadings(vals: seq<int>): (rs: seq<Reading>)
    ensures |rs| == |vals|
  {
    seq(|vals|, i requires 0 <= i < |vals| => if vals[i] == 0 then Blank else Number(vals[i]))
  }

  /** The clues of one row: its non-zero values with their columns. */
  function RowClues(row: nat, vals: seq<int>): seq<Entry>
    decreases |vals|
  {
    if vals == [] then []
    else
      var c := |vals| - 1;
      RowClues(row, vals[..c]) + (if vals[c] == 0 then [] else [Entry(Coord(row, c), vals[c])])
  }

  /** The clues of a grid, row after row. */
  function Clues(rows: seq<seq<int>>): seq<Entry>
    decreases |rows|
  {
    if rows == [] then []
    else
      var r := |rows| - 1;
      Clues(rows[..r]) + RowClues(r, rows[r])
  }

  /** Writing a grid whose rows are not empty in the su format and loading
      it gives back the grid's clues, in both dialects. */
  lemma LoadGridText(d: Dialect, rows: seq<seq<int>>)
    requires forall r | 0 <= r < |rows| :: rows[r] != []
    ensures Marking(d, GridText(rows)) == Some(Clues(rows))
  {
    GridNonBlank(rows);
    GridLexed(d, rows);
    RowsOfValues(rows);
  }

  /** No line of a grid is dropped or changed by stripping. */
  lemma GridNonBlank(rows: seq<seq<int>>)
    requires forall r | 0 <= r < |rows| :: rows[r] != []
    ensures NonBlank(GridText(rows)) == GridText(rows)
  {
    var lines := GridText(rows);
    forall r | 0 <= r < |rows| ensures Strip(lines[r]) == lines[r] && lines[r] != [] {
      RowTextPlain(rows[r]);
    }
    StrippedPlain(lines);
    KeptAll(lines);
  }

  /** The readings of a grid's lines are its values, 0 read as a
      placeholder. */
  lemma GridLexed(d: Dialect, rows: seq<seq<int>>)
    ensures Lexed(d, GridText(rows)) == seq(|rows|, r requires 0 <= r < |rows| => ValueReadings(rows[r]))
  {
    var lines := GridText(rows);
    forall r | 0 <= r < |rows| ensures Lexed(d, lines)[r] == ValueReadings(rows[r]) {
      RowReadings(d, rows[r]);
    }
  }

  /** Lines that strip to themselves are left as they are. */
  lemma {:induction false} StrippedPlain(lines: seq<string>)
    requires forall i | 0 <= i < |lines| :: Strip(lines[i]) == lines[i]
    ensures Stripped(lines) == lines
    decreases |lines|
  {
    if lines != [] {
      StrippedPlain(lines[..|lines| - 1]);
    }
  }

  /** Nothing is dropped from lines that are all non-empty. */
  lemma {:induction false} KeptAll(ss: seq<string>)
    requires forall i | 0 <= i < |ss| :: ss[i] != []
    ensures Kept(ss) == ss
    decreases |ss|
  {
    if ss != [] {
      KeptAll(ss[..|ss| - 1]);
    }
  }

  /** The rows of a grid's readings give the grid's clues. */
  lemma {:induction false} RowsOfValues(rows: seq<seq<int>>)
    ensures Rows(seq(|rows|, r requires 0 <= r < |rows| => ValueReadings(rows[r]))) == Some(Clues(rows))
    decreases |rows|
  {
    if rows != [] {
      var n := |rows| - 1;
      var lexed := seq(|rows|, r requires 0 <= r < |rows| => ValueReadings(rows[r]));
      RowsOfValues(rows[..n]);
      assert lexed[..n] == seq(n, r requires 0 <= r < n => ValueReadings(rows[..n][r]));
      RowEntries(n, rows[n]);
    }
  }

  /** A row line is not blank and has no whitespace at either end. */
  lemma RowTextPlain(vals: seq<int>)
    requires vals != []
    ensures Strip(RowText(vals)) == RowText(vals) && RowText(vals) != []
  {
    var ts := RowTokens(vals);
    forall i | 0 <= i < |ts| ensures ts[i] != [] && NoSpace(ts[i]) {
      IntToStringPlain(vals[i]);
    }
    JoinEnds(ts, " ");
    StripPlain(RowText(vals));
  }

  /** A join of non-empty parts starts with the first part's first character
      and ends with the last part's last character. */
  lemma {:induction false} JoinEnds(parts: seq<string>, sep: string)
    requires parts != [] && forall i | 0 <= i < |parts| :: parts[i] != []
    ensures Join(parts, sep) != []
    ensures Join(parts, sep)[0] == parts[0][0]
    ensures Join(parts, sep)[|Join(parts, sep)| - 1] == parts[|parts| - 1][|parts[|parts| - 1]| - 1]
    decreases |parts|
  {
    if |parts| > 1 {
      JoinEnds(parts[1..], sep);
    }
  }

  /** The readings of a row line are the row's values, 0 read as a
      placeholder. */
  lemma RowReadings(d: Dialect, vals: seq<int>)
    ensures Readings(d, RowText(vals)) == ValueReadings(vals)
  {
    var ts := RowTokens(vals);
    forall i | 0 <= i < |ts| ensures ts[i] != [] && NoSpace(ts[i]) {
      IntToStringPlain(vals[i]);
    }
    WordsJoin(ts);
    forall i | 0 <= i < |vals| ensures Read(d, ts[i]) == ValueReadings(vals)[i] {
      PrintedToken(d, vals[i]);
    }
  }

  /** A printed number is a placeholder exactly when it is 0, in both
      dialects, and it reads back as itself. */
  lemma PrintedToken(d: Dialect, v: int)
    ensures Skips(d, IntToString(v)) <==> v == 0
    ensures ParseInt(IntToString(v)) == Some(v)
  {
    var s := IntToString(v);
    IntToStringPlain(v);
    ParseIntToString(v);
    if v == 0 {
      assert s == "0";
    }
    assert s != "_0" && s != "0." && s != "_0." && s != "_" && s != "." && s != "" by {
      assert "_0"[0] == '_' && "0."[1] == '.' && "_0."[0] == '_' && "_"[0] == '_' && "."[0] == '.';
    }
    if s == "0" {
      assert ParseInt("0") == Some(0) by { ParseUnsigned("0"); }
    }
  }

  /** The readings of a row give the row's clues. */
  lemma {:induction false} RowEntries(row: nat, vals: seq<int>)
    ensures TokenEntries(row, ValueReadings(vals)) == Some(RowClues(row, vals))
    decreases |vals|
  {
    if vals != [] {
      var c := |vals| - 1;
      var rs := ValueReadings(vals);
      RowEntries(row, vals[..c]);
      assert rs[..c] == ValueReadings(vals[..c]);
      assert rs[c] == if vals[c] == 0 then Blank else Number(vals[c]);
      assert TokenEntries(row, rs) == if vals[c] == 0 then TokenEntries(row, rs[..c])
        else Some(TokenEntries(row, rs[..c]).value + [Entry(Coord(row, c), vals[c])]);
      assert RowClues(row, vals) == RowClues(row, vals[..c]) + (if vals[c] == 0 then [] else [Entry(Coord(row, c), vals[c])]);
      if vals[c] == 0 {
        var prev := RowClues(row, vals[..c]);
        assert RowClues(row, vals) == prev + [];
        assert prev + [] == prev;
        assert TokenEntries(row, rs) == TokenEntries(row, rs[..c]);
        assert TokenEntries(row, rs[..c]) == Some(prev);
      }
    }
  }
}

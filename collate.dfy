/**
  `collate` (mycota/data.py): sorts the columns by name, renumbers the columns of
  every repeated template parameter (`colour`, `colour2`, ... become `colour1`,
  `colour2`, ...) and adds one column per such parameter holding the `", "`-join of
  each row's values.
*/
module Collate {
  import opened Wrappers
  import opened Strings
  import opened Sorting
  import opened Frames

  /** One row of `pieces`: a column name split into its stem and digit suffix. */
  datatype Piece = Piece(stem: string, idx: string)

  /** The frames `collate` is given: rectangular, with distinct non-empty column names. */
  predicate WellFormed(t: Table) {
    && Rectangular(t)
    && DistinctKeys(t.columns, NameOf)
    && forall c | c in t.columns :: c.name != []
  }

  function Id(s: string): string {
    s
  }

  /** A possible stem: non-empty, and not ending in a digit unless it is one character. */
  predicate IsStem(s: string) {
    |s| > 0 && (|s| == 1 || !IsDigit(s[|s| - 1]))
  }

  /** The length of the run of digits that ends s. */
  function TrailingDigits(s: string): (k: nat)
    ensures k <= |s|
    ensures forall i | |s| - k <= i < |s| :: IsDigit(s[i])
    ensures k < |s| ==> !IsDigit(s[|s| - k - 1])
  {
    if |s| > 0 && IsDigit(s[|s| - 1]) then TrailingDigits(s[..|s| - 1]) + 1 else 0
  }

  /**
    `str.extract` with `^(?P<stem>.+?)(?P<idx>\d*)$`: the lazy stem is as short as it
    can be, so the suffix is the longest run of trailing digits that still leaves at
    least one character for the stem.
  */
  function SplitName(name: string): (p: Piece)
    requires name != []
    ensures p.stem + p.idx == name
    ensures IsStem(p.stem) && AllDigits(p.idx)
  {
    var k := TrailingDigits(name);
    var cut := if k == |name| then 1 else |name| - k;
    assert name == name[..cut] + name[cut..];
    Piece(name[..cut], name[cut..])
  }

  lemma {:induction false} TrailingDigitsAfterDigits(pre: string, post: string)
    requires AllDigits(post)
    ensures TrailingDigits(pre + post) == TrailingDigits(pre) + |post|
  {
    if post != [] {
      var s := pre + post;
      assert s[..|s| - 1] == pre + post[..|post| - 1];
      TrailingDigitsAfterDigits(pre, post[..|post| - 1]);
    } else {
      assert pre + post == pre;
    }
  }

  /**
    The split is the only one of its kind: any stem followed by any digit string
    splits back into exactly that stem and that suffix.
  */
  lemma SplitNameUnique(stem: string, idx: string)
    requires IsStem(stem) && AllDigits(idx)
    ensures SplitName(stem + idx) == Piece(stem, idx)
  {
    TrailingDigitsAfterDigits(stem, idx);
    var name := stem + idx;
    assert name[..|stem|] == stem && name[|stem|..] == idx;
    if |stem| == 1 && IsDigit(stem[0]) {
      assert TrailingDigits(stem) == 1 by {
        assert stem[..0] == [];
      }
    }
  }

  /** `pieces`: the split of every (sorted) column name. */
  function Pieces(cols: seq<Column>): (ps: seq<Piece>)
    requires forall i | 0 <= i < |cols| :: cols[i].name != []
    ensures |ps| == |cols|
    ensures forall i | 0 <= i < |cols| :: ps[i] == SplitName(cols[i].name)
  {
    seq(|cols|, i requires 0 <= i < |cols| => SplitName(cols[i].name))
  }

  /** `pieces.loc[pieces['idx'] != '', 'stem']`. */
  function SuffixedStems(ps: seq<Piece>): (ss: seq<string>)
    ensures forall s :: s in ss <==> exists i | 0 <= i < |ps| :: ps[i].idx != "" && ps[i].stem == s
  {
    if ps == [] then []
    else
      var init := ps[..|ps| - 1];
      var rest := SuffixedStems(init);
      assert forall i | 0 <= i < |init| :: init[i] == ps[i];
      rest + (if ps[|ps| - 1].idx != "" then [ps[|ps| - 1].stem] else [])
  }

  /** `drop_duplicates()`: the first occurrence of each value, in order. */
  function Dedup(xs: seq<string>): (r: seq<string>)
    ensures forall x :: x in r <==> x in xs
    ensures DistinctKeys(r, Id)
  {
    if xs == [] then []
    else
      var init := xs[..|xs| - 1];
      var d := Dedup(init);
      assert xs == init + [xs[|xs| - 1]];
      if xs[|xs| - 1] in d then d else d + [xs[|xs| - 1]]
  }

  /** How many of the pieces have the given stem. */
  function CountStem(ps: seq<Piece>, s: string): nat {
    if ps == [] then 0
    else CountStem(ps[..|ps| - 1], s) + (if ps[|ps| - 1].stem == s then 1 else 0)
  }

  /** The positions of the pieces with the given stem, in increasing order. */
  function Members(ps: seq<Piece>, s: string): (ms: seq<nat>)
    ensures |ms| == CountStem(ps, s)
    ensures forall g | 0 <= g < |ms| :: ms[g] < |ps| && ps[ms[g]].stem == s
    ensures forall g, h | 0 <= g < h < |ms| :: ms[g] < ms[h]
  {
    if ps == [] then []
    else
      var init := ps[..|ps| - 1];
      assert forall i | 0 <= i < |init| :: init[i] == ps[i];
      Members(init, s) + (if ps[|ps| - 1].stem == s then [|ps| - 1] else [])
  }

  /** Every piece with the stem is among its members. */
  lemma {:induction false} MembersComplete(ps: seq<Piece>, s: string, i: nat)
    requires i < |ps| && ps[i].stem == s
    ensures i in Members(ps, s)
  {
    var init := ps[..|ps| - 1];
    if i < |init| {
      assert init[i] == ps[i];
      MembersComplete(init, s, i);
    }
  }

  /**
    `newname` of the column at position i: for a stem that has a suffixed column, the
    stem followed by `groupby('stem').cumcount() + 1`; any other column keeps its name.
  */
  function NewName(ps: seq<Piece>, multi: seq<string>, oldName: string, i: nat): (n: string)
    requires i < |ps|
    ensures ps[i].stem !in multi ==> n == oldName
    ensures ps[i].stem in multi ==>
      |ps[i].stem| < |n| && n[..|ps[i].stem|] == ps[i].stem && AllDigits(n[|ps[i].stem|..])
  {
    if ps[i].stem in multi then
      var d := Decimal(CountStem(ps[..i], ps[i].stem) + 1);
      assert (ps[i].stem + d)[..|ps[i].stem|] == ps[i].stem;
      assert (ps[i].stem + d)[|ps[i].stem|..] == d;
      ps[i].stem + d
    else oldName
  }

  /** `rename(columns=...)`: new names, same cells, same order. */
  function Renamed(cols: seq<Column>, names: seq<string>): (r: seq<Column>)
    requires |names| == |cols|
    ensures |r| == |cols|
    ensures forall i | 0 <= i < |cols| :: r[i] == Column(names[i], cols[i].cells)
  {
    seq(|cols|, i requires 0 <= i < |cols| => Column(names[i], cols[i].cells))
  }

  /** The number of present cells. */
  function CountSome(vals: seq<Option<string>>): (n: nat)
    ensures n <= |vals|
  {
    if vals == [] then 0
    else CountSome(vals[..|vals| - 1]) + (if vals[|vals| - 1].Some? then 1 else 0)
  }

  /**
    The present values among a row's cells, in column order (what `stack()` keeps):
    one per present cell, the present cell at position g landing after the present
    cells before it.
  */
  function Present(vals: seq<Option<string>>): (r: seq<string>)
    ensures |r| == CountSome(vals)
    ensures forall g | 0 <= g < |vals| && vals[g].Some? ::
      CountSome(vals[..g]) < |r| && r[CountSome(vals[..g])] == vals[g].value
    ensures r == [] <==> forall g | 0 <= g < |vals| :: vals[g].None?
  {
    if vals == [] then []
    else
      var init := vals[..|vals| - 1];
      var rest := Present(init);
      var r := rest + (if vals[|vals| - 1].Some? then [vals[|vals| - 1].value] else []);
      assert forall g | 0 <= g < |vals| && vals[g].Some? ::
        CountSome(vals[..g]) < |r| && r[CountSome(vals[..g])] == vals[g].value by {
        forall g | 0 <= g < |vals| && vals[g].Some?
          ensures CountSome(vals[..g]) < |r| && r[CountSome(vals[..g])] == vals[g].value
        {
          if g < |init| {
            assert vals[..g] == init[..g] && init[g] == vals[g];
          } else {
            assert vals[..g] == init;
          }
        }
      }
      assert r == [] <==> forall g | 0 <= g < |vals| :: vals[g].None? by {
        assert forall g | 0 <= g < |init| :: init[g] == vals[g];
      }
      r
  }

  /**
    One row of `stack().groupby(level='pageid').agg(', '.join)`: a row whose cells are
    all missing has no group, so the assignment leaves it missing.
  */
  function JoinPresent(vals: seq<Option<string>>): (r: Option<string>)
    ensures r.None? <==> forall g | 0 <= g < |vals| :: vals[g].None?
    ensures r.Some? ==> r.value == Join(Present(vals), ", ")
  {
    var present := Present(vals);
    if present == [] then None else Some(Join(present, ", "))
  }

  /** The columns at the given positions, in the order of the positions. */
  function AtPositions(cols: seq<Column>, members: seq<nat>): (r: seq<Column>)
    requires forall g | 0 <= g < |members| :: members[g] < |cols|
    ensures |r| == |members|
    ensures forall g | 0 <= g < |members| :: r[g] == cols[members[g]]
  {
    seq(|members|, g requires 0 <= g < |members| => cols[members[g]])
  }

  /** One row of the given columns, in column order. */
  function Row(cols: seq<Column>, row: nat): (vals: seq<Option<string>>)
    requires forall g | 0 <= g < |cols| :: row < |cols[g].cells|
    ensures |vals| == |cols|
    ensures forall g | 0 <= g < |cols| :: vals[g] == cols[g].cells[row]
  {
    seq(|cols|, g requires 0 <= g < |cols| => cols[g].cells[row])
  }

  /**
    `selected.stack().groupby(level='pageid').agg(', '.join)`, assigned back onto the
    frame's rows: each row becomes the join of its present values, or stays missing.
  */
  function JoinRows(selected: seq<Column>, rows: nat): (cells: seq<Option<string>>)
    requires forall g | 0 <= g < |selected| :: |selected[g].cells| == rows
    ensures |cells| == rows
    ensures forall row | 0 <= row < rows :: cells[row] == JoinPresent(Row(selected, row))
  {
    seq(rows, row requires 0 <= row < rows => JoinPresent(Row(selected, row)))
  }

  /** The joined column of one stem, from the columns at the member positions. */
  function StemCells(cols: seq<Column>, members: seq<nat>, rows: nat): (cells: seq<Option<string>>)
    requires forall g | 0 <= g < |members| :: members[g] < |cols| && |cols[members[g]].cells| == rows
    ensures |cells| == rows
    ensures forall row | 0 <= row < rows :: cells[row] == JoinPresent(Row(AtPositions(cols, members), row))
  {
    JoinRows(AtPositions(cols, members), rows)
  }

  lemma {:induction false} CountStemMonotone(ps: seq<Piece>, i: nat, j: nat, s: string)
    requires i < j <= |ps| && ps[i].stem == s
    ensures CountStem(ps[..i], s) < CountStem(ps[..j], s)
  {
    if j == i + 1 {
      assert ps[..j][..i] == ps[..i];
    } else {
      assert ps[..j][..j - 1] == ps[..j - 1];
      CountStemMonotone(ps, i, j - 1, s);
    }
  }

  /** The g-th column of a stem, in sorted order, is preceded by g columns of that stem. */
  lemma {:induction false} MembersRank(ps: seq<Piece>, s: string, g: nat)
    requires g < |Members(ps, s)|
    ensures CountStem(ps[..Members(ps, s)[g]], s) == g
  {
    var init := ps[..|ps| - 1];
    var m := Members(ps, s)[g];
    if g < |Members(init, s)| {
      MembersRank(init, s, g);
      assert Members(ps, s)[g] == Members(init, s)[g];
      assert init[..m] == ps[..m];
    } else {
      assert m == |ps| - 1;
      assert ps[..m] == init;
    }
  }

  /** The g-th member of a renumbered stem is named the stem followed by g + 1. */
  lemma NewNameRank(ps: seq<Piece>, multi: seq<string>, oldName: string, s: string, g: nat)
    requires s in multi && g < CountStem(ps, s)
    ensures NewName(ps, multi, oldName, Members(ps, s)[g]) == s + Decimal(g + 1)
  {
    MembersRank(ps, s, g);
  }

  /** The facts about the renaming step that the lemmas below rely on. */
  ghost predicate RenameSetup(cols: seq<Column>, ps: seq<Piece>, multi: seq<string>, names: seq<string>) {
    && StrictlySorted(cols, NameOf)
    && |ps| == |cols| && |names| == |cols|
    && (forall i | 0 <= i < |cols| :: cols[i].name != [] && ps[i] == SplitName(cols[i].name))
    && (forall s :: s in multi <==> exists i | 0 <= i < |ps| :: ps[i].idx != "" && ps[i].stem == s)
    && (forall i | 0 <= i < |cols| :: names[i] == NewName(ps, multi, cols[i].name, i))
  }

  /** No renamed column is named after a stem that has a suffixed column. */
  lemma RenamedNotStem(ps: seq<Piece>, multi: seq<string>, oldName: string, i: nat, s: string)
    requires i < |ps| && IsStem(s) && s in multi
    requires oldName == ps[i].stem + ps[i].idx && IsStem(ps[i].stem) && AllDigits(ps[i].idx)
    requires ps[i].idx != "" ==> ps[i].stem in multi
    ensures NewName(ps, multi, oldName, i) != s
  {
    var name := NewName(ps, multi, oldName, i);
    if ps[i].stem in multi {
      var d := Decimal(CountStem(ps[..i], ps[i].stem) + 1);
      assert name == ps[i].stem + d;
      assert name[|name| - 1] == d[|d| - 1];
    } else {
      assert ps[i].idx == "";
      assert name == ps[i].stem;
    }
  }

  /** Two columns of stems with suffixed columns are renumbered apart. */
  lemma RenumberedDistinct(ps: seq<Piece>, multi: seq<string>, oi: string, oj: string, i: nat, j: nat)
    requires i < j < |ps| && ps[i].stem in multi && ps[j].stem in multi
    requires IsStem(ps[i].stem) && IsStem(ps[j].stem)
    ensures NewName(ps, multi, oi, i) != NewName(ps, multi, oj, j)
  {
    var ci, cj := CountStem(ps[..i], ps[i].stem) + 1, CountStem(ps[..j], ps[j].stem) + 1;
    var di, dj := Decimal(ci), Decimal(cj);
    SplitNameUnique(ps[i].stem, di);
    SplitNameUnique(ps[j].stem, dj);
    if ps[i].stem + di == ps[j].stem + dj {
      assert ps[i].stem == ps[j].stem && di == dj;
      DecimalInjective(ci, cj);
      CountStemMonotone(ps, i, j, ps[i].stem);
      assert false;
    }
  }

  /** A renumbered column never takes the name of a column that keeps its own. */
  lemma RenumberedNotKept(ps: seq<Piece>, multi: seq<string>, oa: string, a: nat, ob: string, b: nat)
    requires a < |ps| && b < |ps| && ps[a].stem in multi && ps[b].stem !in multi
    requires IsStem(ps[a].stem) && ob != [] && ps[b] == SplitName(ob)
    ensures NewName(ps, multi, oa, a) != NewName(ps, multi, ob, b)
  {
    var d := Decimal(CountStem(ps[..a], ps[a].stem) + 1);
    SplitNameUnique(ps[a].stem, d);
  }

  /** Two renamed columns never share a name. */
  lemma RenamedDistinct(ps: seq<Piece>, multi: seq<string>, oi: string, oj: string, i: nat, j: nat)
    requires i < j < |ps| && oi != oj && oi != [] && oj != []
    requires ps[i] == SplitName(oi) && ps[j] == SplitName(oj)
    ensures NewName(ps, multi, oi, i) != NewName(ps, multi, oj, j)
  {
    var si, sj := ps[i].stem in multi, ps[j].stem in multi;
    if si && sj {
      RenumberedDistinct(ps, multi, oi, oj, i, j);
    } else if si {
      RenumberedNotKept(ps, multi, oi, i, oj, j);
    } else if sj {
      RenumberedNotKept(ps, multi, oj, j, oi, i);
    }
  }

  /**
    Renaming yields distinct names, none of which is a stem that has a suffixed column:
    so selecting the renamed columns by name finds each exactly once, and the stem
    columns added afterwards are new columns.
  */
  lemma RenamedNames(cols: seq<Column>, ps: seq<Piece>, multi: seq<string>, names: seq<string>)
    requires RenameSetup(cols, ps, multi, names)
    ensures forall i, j | 0 <= i < j < |names| :: names[i] != names[j]
    ensures forall i, s | 0 <= i < |names| && s in multi :: names[i] != s
  {
    forall i | 0 <= i < |ps| ensures ps[i].idx != "" ==> ps[i].stem in multi {
    }
    forall i, s | 0 <= i < |names| && s in multi ensures names[i] != s {
      var j :| 0 <= j < |ps| && ps[j].idx != "" && ps[j].stem == s;
      RenamedNotStem(ps, multi, cols[i].name, i, s);
    }
    forall i, j | 0 <= i < j < |names| ensures names[i] != names[j] {
      BelowIrreflexive(cols[i].name);
      RenamedDistinct(ps, multi, cols[i].name, cols[j].name, i, j);
    }
  }

  /** `sort_index(axis='columns')`: the columns by increasing name. */
  function SortedColumns(t: Table): (sorted: seq<Column>)
    requires WellFormed(t)
    ensures |sorted| == |t.columns| && multiset(sorted) == multiset(t.columns)
    ensures StrictlySorted(sorted, NameOf)
    ensures forall i | 0 <= i < |sorted| :: |sorted[i].cells| == |t.index| && sorted[i].name != []
  {
    var sorted := SortBy(t.columns, NameOf);
    assert forall i | 0 <= i < |sorted| :: |sorted[i].cells| == |t.index| && sorted[i].name != [] by {
      forall i | 0 <= i < |sorted| ensures |sorted[i].cells| == |t.index| && sorted[i].name != [] {
        SortByElement(t.columns, NameOf, i);
      }
    }
    sorted
  }

  /** `pieces` of the sorted frame. */
  function SortedPieces(t: Table): (ps: seq<Piece>)
    requires WellFormed(t)
    ensures |ps| == |t.columns|
    ensures forall i {:trigger ps[i]} | 0 <= i < |ps| :: ps[i] == SplitName(SortedColumns(t)[i].name)
  {
    Pieces(SortedColumns(t))
  }

  /** `multi_stems`: the stems that have at least one suffixed column, each once. */
  function MultiStems(ps: seq<Piece>): (multi: seq<string>)
    ensures forall s :: s in multi <==> exists i | 0 <= i < |ps| :: ps[i].idx != "" && ps[i].stem == s
    ensures DistinctKeys(multi, Id)
  {
    Dedup(SuffixedStems(ps))
  }

  /** The `newname` of every sorted column. */
  function NewNames(cols: seq<Column>, ps: seq<Piece>, multi: seq<string>): (names: seq<string>)
    requires |ps| == |cols|
    ensures |names| == |cols|
    ensures forall i | 0 <= i < |cols| :: names[i] == NewName(ps, multi, cols[i].name, i)
  {
    seq(|cols|, i requires 0 <= i < |cols| => NewName(ps, multi, cols[i].name, i))
  }

  /**
    The sorted frame after the renaming: same cells, distinct names, and no name
    equal to a stem that has a suffixed column.
  */
  function Renumbered(t: Table): (cols: seq<Column>)
    requires WellFormed(t)
    ensures |cols| == |t.columns|
    ensures forall i {:trigger cols[i]} | 0 <= i < |cols| ::
      cols[i] == Column(NewName(SortedPieces(t), MultiStems(SortedPieces(t)), SortedColumns(t)[i].name, i),
                        SortedColumns(t)[i].cells)
    ensures DistinctNames(cols)
    ensures forall i, s | 0 <= i < |cols| && s in MultiStems(SortedPieces(t)) :: cols[i].name != s
  {
    var sorted := SortedColumns(t);
    var ps := SortedPieces(t);
    var multi := MultiStems(ps);
    var names := NewNames(sorted, ps, multi);
    RenamedNames(sorted, ps, multi, names);
    Renamed(sorted, names)
  }

  /** The stems of `multi_pieces.groupby('stem')`, in the increasing order it visits them. */
  function Groups(t: Table): (groups: seq<string>)
    requires WellFormed(t)
    ensures StrictlySorted(groups, Id)
    ensures forall k | 0 <= k < |groups| :: groups[k] in MultiStems(SortedPieces(t))
    ensures multiset(groups) == multiset(MultiStems(SortedPieces(t)))
  {
    var multi := MultiStems(SortedPieces(t));
    var groups := SortBy(multi, Id);
    assert forall k | 0 <= k < |groups| :: groups[k] in multi by {
      forall k | 0 <= k < |groups| ensures groups[k] in multi {
        SortByElement(multi, Id, k);
      }
    }
    groups
  }

  /** The joined columns, one per stem in `groups`, appended after the renamed ones. */
  function StemColumns(renamed: seq<Column>, ps: seq<Piece>, groups: seq<string>, rows: nat): (added: seq<Column>)
    requires |ps| == |renamed| && forall i | 0 <= i < |renamed| :: |renamed[i].cells| == rows
    ensures |added| == |groups|
    ensures forall k | 0 <= k < |groups| :: added[k].name == groups[k] && |added[k].cells| == rows
  {
    if groups == [] then []
    else
      var last := groups[|groups| - 1];
      StemColumns(renamed, ps, groups[..|groups| - 1], rows) + [Column(last, StemCells(renamed, Members(ps, last), rows))]
  }

  /** The k-th added column is the joined column of the k-th stem. */
  lemma {:induction false} StemColumnsAt(renamed: seq<Column>, ps: seq<Piece>, groups: seq<string>, rows: nat, k: nat)
    requires |ps| == |renamed| && forall i | 0 <= i < |renamed| :: |renamed[i].cells| == rows
    requires k < |groups|
    ensures StemColumns(renamed, ps, groups, rows)[k] == Column(groups[k], StemCells(renamed, Members(ps, groups[k]), rows))
  {
    if k < |groups| - 1 {
      var init := groups[..|groups| - 1];
      StemColumnsAt(renamed, ps, init, rows, k);
    }
  }

  /** The joined columns `collate` adds to the renamed frame, one per stem in `Groups(t)`. */
  function Added(t: Table): (added: seq<Column>)
    requires WellFormed(t)
    ensures |added| == |Groups(t)|
    ensures forall k | 0 <= k < |added| :: added[k].name == Groups(t)[k] && |added[k].cells| == |t.index|
  {
    StemColumns(Renumbered(t), SortedPieces(t), Groups(t), |t.index|)
  }

  /** Appending columns keeps the cells of the first ones. */
  lemma AppendKeepsCells(renamed: seq<Column>, added: seq<Column>, sorted: seq<Column>)
    requires |renamed| == |sorted| && forall i | 0 <= i < |sorted| :: renamed[i].cells == sorted[i].cells
    ensures forall i | 0 <= i < |sorted| :: (renamed + added)[i].cells == sorted[i].cells
  {
  }

  /** Columns named by strictly increasing stems, appended, stay in that order. */
  lemma AppendSortedNames(renamed: seq<Column>, added: seq<Column>, groups: seq<string>)
    requires |added| == |groups| && forall k | 0 <= k < |added| :: added[k].name == groups[k]
    requires StrictlySorted(groups, Id)
    ensures var cols := renamed + added;
      forall j, l | |renamed| <= j < l < |cols| :: Below(cols[j].name, cols[l].name)
  {
    var cols := renamed + added;
    forall j, l | |renamed| <= j < l < |cols| ensures Below(cols[j].name, cols[l].name) {
      assert cols[j] == added[j - |renamed|] && cols[l] == added[l - |renamed|];
    }
  }

  /** Appending columns of the same height keeps a frame rectangular. */
  lemma AppendRectangular(renamed: seq<Column>, added: seq<Column>, rows: nat)
    requires forall i | 0 <= i < |renamed| :: |renamed[i].cells| == rows
    requires forall k | 0 <= k < |added| :: |added[k].cells| == rows
    ensures forall c | c in renamed + added :: |c.cells| == rows
  {
    forall c | c in renamed + added ensures |c.cells| == rows {
      var i :| 0 <= i < |renamed + added| && (renamed + added)[i] == c;
      if i >= |renamed| {
        assert c == added[i - |renamed|];
      }
    }
  }

  /**
    Distinct renamed columns, followed by columns named by strictly increasing stems
    that none of them carries, have distinct names.
  */
  lemma AppendDistinct(renamed: seq<Column>, added: seq<Column>, groups: seq<string>)
    requires DistinctNames(renamed)
    requires |added| == |groups| && forall k | 0 <= k < |added| :: added[k].name == groups[k]
    requires StrictlySorted(groups, Id)
    requires forall i, j | 0 <= i < |renamed| && 0 <= j < |groups| :: renamed[i].name != groups[j]
    ensures DistinctNames(renamed + added)
  {
    var cols := renamed + added;
    var n := |renamed|;
    forall i, j | 0 <= i < j < |cols| ensures cols[i].name != cols[j].name {
      if j >= n {
        assert cols[j].name == groups[j - n];
        if i >= n {
          assert cols[i].name == groups[i - n];
          BelowIrreflexive(groups[i - n]);
        } else {
          assert cols[i] == renamed[i];
        }
      } else {
        assert cols[i] == renamed[i] && cols[j] == renamed[j];
      }
    }
  }

  /**
    The frame `collate` returns. Its first columns carry the input's cells in the
    order of strictly increasing column name; the remaining columns are one per
    stem, named by the stems in increasing order; the row index is unchanged.
  */
  function Collated(t: Table): (r: Table)
    requires WellFormed(t)
    ensures r.index == t.index && r.indexName == t.indexName
    ensures |r.columns| >= |t.columns|
    ensures forall i | 0 <= i < |t.columns| :: r.columns[i].cells == SortedColumns(t)[i].cells
    ensures forall j, l | |t.columns| <= j < l < |r.columns| :: Below(r.columns[j].name, r.columns[l].name)
    ensures Rectangular(r)
  {
    var renamed, added, sorted := Renumbered(t), Added(t), SortedColumns(t);
    AppendKeepsCells(renamed, added, sorted);
    AppendSortedNames(renamed, added, Groups(t));
    AppendRectangular(renamed, added, |t.index|);
    Table(t.indexName, t.index, renamed + added)
  }

  /** No renamed column carries the name of a stem column. */
  lemma RenumberedApartFromGroups(t: Table)
    requires WellFormed(t)
    ensures forall i, j | 0 <= i < |Renumbered(t)| && 0 <= j < |Groups(t)| :: Renumbered(t)[i].name != Groups(t)[j]
  {
  }

  /** Selecting renamed columns by their (distinct) names finds them, even after more columns. */
  lemma SelectRenamed(renamed: seq<Column>, extra: seq<Column>, members: seq<nat>, names: seq<string>)
    requires DistinctNames(renamed)
    requires |names| == |members|
    requires forall g | 0 <= g < |members| :: members[g] < |renamed| && names[g] == renamed[members[g]].name
    ensures forall g | 0 <= g < |names| :: HasColumn(renamed + extra, names[g])
    ensures Select(renamed + extra, names) == AtPositions(renamed, members)
  {
    forall g | 0 <= g < |names|
      ensures HasColumn(renamed + extra, names[g]) && Lookup(renamed + extra, names[g]) == renamed[members[g]]
    {
      LookupDistinct(renamed, members[g]);
      LookupInPrefix(renamed, extra, names[g]);
    }
  }

  /** A stem column yet to be added is not among the columns so far. */
  lemma StemNotYetAdded(renamed: seq<Column>, ps: seq<Piece>, groups: seq<string>, k: nat, rows: nat)
    requires |ps| == |renamed| && forall i | 0 <= i < |renamed| :: |renamed[i].cells| == rows
    requires k < |groups| && StrictlySorted(groups, Id)
    requires forall i | 0 <= i < |renamed| :: renamed[i].name != groups[k]
    ensures !HasColumn(renamed + StemColumns(renamed, ps, groups[..k], rows), groups[k])
  {
    var cols := renamed + StemColumns(renamed, ps, groups[..k], rows);
    forall j | 0 <= j < |cols| ensures cols[j].name != groups[k] {
      if j >= |renamed| {
        assert cols[j].name == groups[j - |renamed|];
        BelowIrreflexive(groups[k]);
      }
    }
  }

  /** Adding the k-th stem column extends the stem columns by one. */
  lemma StemColumnsSnoc(renamed: seq<Column>, ps: seq<Piece>, groups: seq<string>, k: nat, rows: nat)
    requires |ps| == |renamed| && forall i | 0 <= i < |renamed| :: |renamed[i].cells| == rows
    requires k < |groups|
    ensures StemColumns(renamed, ps, groups[..k + 1], rows)
         == StemColumns(renamed, ps, groups[..k], rows) + [Column(groups[k], StemCells(renamed, Members(ps, groups[k]), rows))]
  {
    assert groups[..k + 1][..k] == groups[..k];
  }

  /** The facts about the renamed frame that the loop of `collate` relies on. */
  predicate LoopSetup(renamed: seq<Column>, ps: seq<Piece>, newNames: seq<string>, groups: seq<string>, rows: nat) {
    && |ps| == |renamed| && (forall i | 0 <= i < |renamed| :: |renamed[i].cells| == rows)
    && DistinctNames(renamed) && StrictlySorted(groups, Id)
    && |newNames| == |renamed| && (forall i | 0 <= i < |renamed| :: newNames[i] == renamed[i].name)
    && (forall i, j | 0 <= i < |renamed| && 0 <= j < |groups| :: renamed[i].name != groups[j])
  }

  /**
    One turn of the loop of `collate`: the new names of the k-th stem's members are
    all present, and assigning the join of the selected columns under the stem adds
    the k-th stem column.
  */
  lemma AddStemStep(renamed: seq<Column>, ps: seq<Piece>, newNames: seq<string>, groups: seq<string>, rows: nat,
                    k: nat, names: seq<string>)
    requires LoopSetup(renamed, ps, newNames, groups, rows) && k < |groups|
    requires |names| == |Members(ps, groups[k])|
    requires forall g | 0 <= g < |names| :: names[g] == newNames[Members(ps, groups[k])[g]]
    ensures forall g | 0 <= g < |names| :: HasColumn(renamed + StemColumns(renamed, ps, groups[..k], rows), names[g])
    ensures Select(renamed + StemColumns(renamed, ps, groups[..k], rows), names) == AtPositions(renamed, Members(ps, groups[k]))
    ensures var cols := renamed + StemColumns(renamed, ps, groups[..k], rows);
      SetColumn(cols, groups[k], JoinRows(Select(cols, names), rows)) == renamed + StemColumns(renamed, ps, groups[..k + 1], rows)
  {
    var group := Members(ps, groups[k]);
    SelectRenamed(renamed, StemColumns(renamed, ps, groups[..k], rows), group, names);
    StemNotYetAdded(renamed, ps, groups, k, rows);
    StemColumnsSnoc(renamed, ps, groups, k, rows);
  }

  /**
    The loop of `collate`: for each stem in `groups`, select the group's columns by
    their new names and assign the joined column under the stem's name.
  */
  method AddStemColumns(renamed: seq<Column>, ps: seq<Piece>, newNames: seq<string>, groups: seq<string>, rows: nat)
    returns (byColumn: seq<Column>)
    requires LoopSetup(renamed, ps, newNames, groups, rows)
    ensures byColumn == renamed + StemColumns(renamed, ps, groups, rows)
  {
    byColumn := renamed;
    var k := 0;
    while k < |groups|
      invariant k <= |groups|
      invariant byColumn == renamed + StemColumns(renamed, ps, groups[..k], rows)
    {
      var stem := groups[k];
      var group := Members(ps, stem);
      var names := seq(|group|, g requires 0 <= g < |group| => newNames[group[g]]);
      AddStemStep(renamed, ps, newNames, groups, rows, k, names);
      var cells := JoinRows(Select(byColumn, names), rows);
      byColumn := SetColumn(byColumn, stem, cells);
      k := k + 1;
    }
    assert groups[..k] == groups;
  }

  /**
    `collate`: sort the columns, rename the numbered groups, then add one joined
    column per stem, visiting the stems in the sorted order `groupby` uses.
  */
  method Collate(t: Table) returns (r: Table)
    requires WellFormed(t)
    ensures r == Collated(t)
  {
    var byColumn := SortedColumns(t);
    var pieces := Pieces(byColumn);
    var multiStems := MultiStems(pieces);
    var newNames := NewNames(byColumn, pieces, multiStems);
    byColumn := Renamed(byColumn, newNames);
    assert byColumn == Renumbered(t);
    var groups := SortBy(multiStems, Id);
    assert groups == Groups(t);
    RenumberedApartFromGroups(t);
    byColumn := AddStemColumns(byColumn, pieces, newNames, groups, |t.index|);
    r := Table(t.indexName, t.index, byColumn);
  }

  // Properties of the collated frame.

  /**
    Every column of the result has a distinct name, so each stem column is a new
    column rather than an overwrite of an existing one.
  */
  lemma CollatedNamesDistinct(t: Table)
    requires WellFormed(t)
    ensures DistinctNames(Collated(t).columns)
  {
    RenumberedApartFromGroups(t);
    AppendDistinct(Renumbered(t), Added(t), Groups(t));
  }

  /** The first columns of the result are the renamed sorted columns. */
  lemma CollatedPrefix(t: Table, i: nat)
    requires WellFormed(t) && i < |t.columns|
    ensures Collated(t).columns[i] == Renumbered(t)[i]
  {
    var renamed := Renumbered(t);
    assert Collated(t).columns == renamed + Added(t);
  }

  /**
    Renumbering: the g-th column (in sorted order) of a stem that has a suffixed
    column is named the stem followed by g + 1, for g from 0 to the size of the group
    minus one.
  */
  lemma CollatedRenumbering(t: Table, s: string, g: nat)
    requires WellFormed(t) && s in MultiStems(SortedPieces(t)) && g < CountStem(SortedPieces(t), s)
    ensures Members(SortedPieces(t), s)[g] < |t.columns|
    ensures Collated(t).columns[Members(SortedPieces(t), s)[g]].name == s + Decimal(g + 1)
  {
    var ps := SortedPieces(t);
    var m := Members(ps, s)[g];
    CollatedPrefix(t, m);
    NewNameRank(ps, MultiStems(ps), SortedColumns(t)[m].name, s, g);
  }

  /** A column whose stem has no suffixed column keeps its name. */
  lemma CollatedKeepsName(t: Table, i: nat)
    requires WellFormed(t) && i < |t.columns| && SortedPieces(t)[i].stem !in MultiStems(SortedPieces(t))
    ensures Collated(t).columns[i].name == SortedColumns(t)[i].name
  {
    CollatedPrefix(t, i);
  }

  /** One row of the sorted input's columns of stem s, in sorted order. */
  function StemValues(t: Table, s: string, row: nat): (vals: seq<Option<string>>)
    requires WellFormed(t) && row < |t.index|
    ensures |vals| == CountStem(SortedPieces(t), s)
  {
    Row(AtPositions(SortedColumns(t), Members(SortedPieces(t), s)), row)
  }

  lemma StemColumnAt(renamed: seq<Column>, ps: seq<Piece>, groups: seq<string>, rows: nat, k: nat, row: nat)
    requires |ps| == |renamed| && forall i | 0 <= i < |renamed| :: |renamed[i].cells| == rows
    requires k < |groups| && row < rows
    ensures var c := (renamed + StemColumns(renamed, ps, groups, rows))[|renamed| + k];
      c.name == groups[k] && c.cells[row] == JoinPresent(Row(AtPositions(renamed, Members(ps, groups[k])), row))
  {
    StemColumnsAt(renamed, ps, groups, rows, k);
  }

  /** The renamed columns carry the sorted input's cells. */
  lemma RenumberedRow(t: Table, s: string, row: nat)
    requires WellFormed(t) && row < |t.index|
    ensures Row(AtPositions(Renumbered(t), Members(SortedPieces(t), s)), row) == StemValues(t, s, row)
  {
    var ms := Members(SortedPieces(t), s);
    var a := Row(AtPositions(Renumbered(t), ms), row);
    var b := StemValues(t, s, row);
    forall g | 0 <= g < |ms| ensures a[g] == b[g] {
      assert Renumbered(t)[ms[g]].cells == SortedColumns(t)[ms[g]].cells;
    }
  }

  /**
    The column added for the k-th stem holds, in each row, the `", "`-join of the
    row's present values in that stem's columns, taken in sorted order; it is missing
    exactly when all of them are missing.
  */
  lemma CollatedStemColumn(t: Table, k: nat, row: nat)
    requires WellFormed(t) && k < |Groups(t)| && row < |t.index|
    ensures |Collated(t).columns| == |t.columns| + |Groups(t)|
    ensures Collated(t).columns[|t.columns| + k].name == Groups(t)[k]
    ensures Collated(t).columns[|t.columns| + k].cells[row] == JoinPresent(StemValues(t, Groups(t)[k], row))
  {
    CollatedColumns(t);
    StemColumnCell(Renumbered(t), SortedPieces(t), Groups(t), |t.index|, k, row, SortedColumns(t));
  }

  /** The joined cell of the k-th stem depends only on the cells of the stem's columns. */
  lemma StemColumnCell(renamed: seq<Column>, ps: seq<Piece>, groups: seq<string>, rows: nat, k: nat, row: nat,
                       sorted: seq<Column>)
    requires |ps| == |renamed| && forall i | 0 <= i < |renamed| :: |renamed[i].cells| == rows
    requires |sorted| == |renamed| && forall i | 0 <= i < |renamed| :: sorted[i].cells == renamed[i].cells
    requires k < |groups| && row < rows
    ensures var cols := renamed + StemColumns(renamed, ps, groups, rows);
      && |cols| == |renamed| + |groups|
      && cols[|renamed| + k].name == groups[k]
      && cols[|renamed| + k].cells[row] == JoinPresent(Row(AtPositions(sorted, Members(ps, groups[k])), row))
  {
    StemColumnAt(renamed, ps, groups, rows, k, row);
    var ms := Members(ps, groups[k]);
    var a := Row(AtPositions(renamed, ms), row);
    var b := Row(AtPositions(sorted, ms), row);
    assert a == b by {
      forall g | 0 <= g < |ms| ensures a[g] == b[g] {
        assert renamed[ms[g]].cells == sorted[ms[g]].cells;
      }
    }
  }

  /** The collated columns: the renumbered columns, then one joined column per stem. */
  lemma CollatedColumns(t: Table)
    requires WellFormed(t)
    ensures Collated(t).columns == Renumbered(t) + StemColumns(Renumbered(t), SortedPieces(t), Groups(t), |t.index|)
  {
    assert Added(t) == StemColumns(Renumbered(t), SortedPieces(t), Groups(t), |t.index|);
  }
}

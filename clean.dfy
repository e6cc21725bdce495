/**
  `clean` (mycota/data.py): strips apostrophes around page names, turns the
  "not applicable" words and empty strings into missing cells, and drops the
  columns that end up missing in every row.
*/
module Clean {
  import opened Wrappers
  import opened Strings
  import opened Frames

  /** The column whose values are stripped of surrounding apostrophes. */
  const NameColumn := "name"

  /** The words that mean "no value", compared after lower-casing. */
  const NanLikes: set<string> := {"no", "na", "n/a", "none"}

  /**
    `clean` indexes `df['name']`: a KeyError when the column is absent, and an
    AttributeError (a frame has no `.str`) when the name is held by several columns.
  */
  datatype CleanError = KeyError(column: string) | AttributeError(column: string)

  /** Two or more columns carry the name, so `df[name]` is a frame rather than a column. */
  predicate RepeatedColumn(cols: seq<Column>, name: string) {
    exists i, j | 0 <= i < j < |cols| :: cols[i].name == name && cols[j].name == name
  }

  predicate AllApostrophes(s: string) {
    forall i | 0 <= i < |s| :: s[i] == '\''
  }

  predicate NoEdgeApostrophe(s: string) {
    s == [] || (s[0] != '\'' && s[|s| - 1] != '\'')
  }

  function LeadingApostrophes(s: string): (k: nat)
    ensures k <= |s| && AllApostrophes(s[..k])
    ensures k < |s| ==> s[k] != '\''
  {
    if |s| > 0 && s[0] == '\'' then 1 + LeadingApostrophes(s[1..]) else 0
  }

  function TrailingApostrophes(s: string): (k: nat)
    ensures k <= |s|
    ensures forall i | |s| - k <= i < |s| :: s[i] == '\''
    ensures k < |s| ==> s[|s| - k - 1] != '\''
  {
    if |s| > 0 && s[|s| - 1] == '\'' then TrailingApostrophes(s[..|s| - 1]) + 1 else 0
  }

  /**
    The substitution of `^'*(.*?)'*$` by its group: the greedy prefix takes every
    leading apostrophe and, the group being lazy, the suffix takes every trailing one.
    The result is the middle of s, between a run of apostrophes on each side.
  */
  function StripApostrophes(s: string): (r: string)
    ensures NoEdgeApostrophe(r)
    ensures var a := LeadingApostrophes(s);
      && a + |r| <= |s|
      && s == s[..a] + r + s[a + |r|..]
      && AllApostrophes(s[..a]) && AllApostrophes(s[a + |r|..])
  {
    var a := LeadingApostrophes(s);
    var rest := s[a..];
    var r := rest[..|rest| - TrailingApostrophes(rest)];
    assert s == s[..a] + r + s[a + |r|..];
    r
  }

  lemma {:induction false} LeadingAfterApostrophes(pre: string, rest: string)
    requires AllApostrophes(pre)
    ensures LeadingApostrophes(pre + rest) == |pre| + LeadingApostrophes(rest)
  {
    if pre != [] {
      assert (pre + rest)[1..] == pre[1..] + rest;
      LeadingAfterApostrophes(pre[1..], rest);
    } else {
      assert pre + rest == rest;
    }
  }

  lemma {:induction false} TrailingBeforeApostrophes(rest: string, post: string)
    requires AllApostrophes(post)
    ensures TrailingApostrophes(rest + post) == TrailingApostrophes(rest) + |post|
  {
    if post != [] {
      var s := rest + post;
      assert s[..|s| - 1] == rest + post[..|post| - 1];
      TrailingBeforeApostrophes(rest, post[..|post| - 1]);
    } else {
      assert rest + post == rest;
    }
  }

  /** Stripping undoes exactly the apostrophe runs put around an apostrophe-free-ended middle. */
  lemma StripApostrophesExact(pre: string, mid: string, post: string)
    requires AllApostrophes(pre) && AllApostrophes(post) && NoEdgeApostrophe(mid)
    ensures StripApostrophes(pre + mid + post) == mid
  {
    var s := pre + mid + post;
    if mid == [] {
      assert s == pre + post;
      assert AllApostrophes(s);
      LeadingAfterApostrophes(s, []);
      assert s + [] == s;
    } else {
      assert s == pre + (mid + post);
      LeadingAfterApostrophes(pre, mid + post);
      assert s[|pre|..] == mid + post;
      TrailingBeforeApostrophes(mid, post);
      assert (mid + post)[..|mid|] == mid;
    }
  }

  /** A name whose ends are not apostrophes is left alone. */
  lemma StripApostrophesKeepsClean(s: string)
    requires NoEdgeApostrophe(s)
    ensures StripApostrophes(s) == s
  {
    StripApostrophesExact([], s, []);
    assert [] + s + [] == s;
  }

  /** Stripping twice is stripping once. */
  lemma StripApostrophesIdempotent(s: string)
    ensures StripApostrophes(StripApostrophes(s)) == StripApostrophes(s)
  {
    StripApostrophesKeepsClean(StripApostrophes(s));
  }

  /** A name made only of apostrophes becomes the empty string. */
  lemma StripAllApostrophes(s: string)
    requires AllApostrophes(s)
    ensures StripApostrophes(s) == ""
  {
    StripApostrophesExact(s, [], []);
    assert s + [] + [] == s;
  }

  /** One of the "not applicable" words, in any letter case; such a word has 2 to 4 characters. */
  predicate IsNanLike(v: string)
    ensures IsNanLike(v) ==> 2 <= |v| <= 4
  {
    Lower(v) in NanLikes
  }

  /** The mask of lines 25-30 does not depend on letter case. */
  lemma IsNanLikeIgnoresCase(v: string)
    ensures IsNanLike(Lower(v)) <==> IsNanLike(v)
  {
    assert Lower(Lower(v)) == Lower(v);
  }

  predicate IsEmpty(v: string) {
    v == ""
  }

  // The vectorised steps of `clean`, one function per statement.

  /**
    `df['name'] = df['name'].str.replace(...)`: other columns are untouched; in the
    `name` column missing names stay missing and present ones lose their edge apostrophes.
  */
  function StripNameCells(c: Column): (r: Column)
    ensures r.name == c.name && |r.cells| == |c.cells|
    ensures c.name != NameColumn ==> r == c
    ensures c.name == NameColumn ==> forall row | 0 <= row < |c.cells| ::
      && (r.cells[row].None? <==> c.cells[row].None?)
      && (r.cells[row].Some? ==> NoEdgeApostrophe(r.cells[row].value))
      && (c.cells[row].Some? ==> r.cells[row] == Some(StripApostrophes(c.cells[row].value)))
  {
    if c.name != NameColumn then c
    else
      Column(c.name, seq(|c.cells|, r requires 0 <= r < |c.cells| =>
        if c.cells[r].Some? then Some(StripApostrophes(c.cells[r].value)) else None))
  }

  /**
    `df[mask] = None` for the mask "the cell's value satisfies p": a cell is missing
    afterwards exactly when it was missing or its value satisfies p, and kept otherwise.
  */
  function NullWhere(c: Column, p: string -> bool): (r: Column)
    ensures r.name == c.name && |r.cells| == |c.cells|
    ensures forall row | 0 <= row < |c.cells| ::
      && (r.cells[row].None? <==> c.cells[row].None? || p(c.cells[row].value))
      && (r.cells[row].Some? ==> r.cells[row] == c.cells[row])
  {
    Column(c.name, seq(|c.cells|, r requires 0 <= r < |c.cells| =>
      if c.cells[r].Some? && p(c.cells[r].value) then None else c.cells[r]))
  }

  function MapColumns(t: Table, f: Column -> Column): (r: Table)
    ensures r.indexName == t.indexName && r.index == t.index
    ensures |r.columns| == |t.columns|
    ensures forall i | 0 <= i < |t.columns| :: r.columns[i] == f(t.columns[i])
  {
    t.(columns := seq(|t.columns|, i requires 0 <= i < |t.columns| => f(t.columns[i])))
  }

  /**
    The positions of the columns that hold a value somewhere, increasing: a position
    is listed if and only if its column is not all missing.
  */
  function KeptPositions(cols: seq<Column>): (ps: seq<nat>)
    ensures |ps| <= |cols|
    ensures forall k | 0 <= k < |ps| :: ps[k] < |cols|
    ensures forall k, l | 0 <= k < l < |ps| :: ps[k] < ps[l]
    ensures forall i | 0 <= i < |cols| :: i in ps <==> !AllNull(cols[i])
  {
    if cols == [] then []
    else
      var init := cols[..|cols| - 1];
      assert forall i | 0 <= i < |init| :: init[i] == cols[i];
      KeptPositions(init) + (if AllNull(cols[|cols| - 1]) then [] else [|cols| - 1])
  }

  /**
    `df.loc[:, ~df.isna().all()]`: exactly the columns that hold a value somewhere, in
    their original order; the k-th kept column is the column at the k-th kept position.
  */
  function KeepNonNull(cols: seq<Column>): (kept: seq<Column>)
    ensures |kept| == |KeptPositions(cols)|
    ensures forall k | 0 <= k < |kept| :: kept[k] == cols[KeptPositions(cols)[k]]
  {
    if cols == [] then []
    else
      var init := cols[..|cols| - 1];
      var last := cols[|cols| - 1];
      var ps0 := KeptPositions(init);
      if AllNull(last) then
        assert KeptPositions(cols) == ps0;
        KeepNonNull(init)
      else
        var ps := ps0 + [|cols| - 1];
        assert KeptPositions(cols) == ps;
        assert forall k | 0 <= k < |ps0| :: ps[k] == ps0[k];
        KeepNonNull(init) + [last]
  }

  /**
    What `clean` leaves in a cell of the column named `col`: a missing cell stays
    missing; a present value survives neither empty nor a "not applicable" word, with
    apostrophe-free ends in `name` and unchanged elsewhere.
  */
  function CleanCell(col: string, c: Option<string>): (r: Option<string>)
    ensures c.None? ==> r.None?
    ensures r.Some? ==> r.value != "" && !IsNanLike(r.value)
    ensures r.Some? && col == NameColumn ==> NoEdgeApostrophe(r.value)
    ensures r.Some? && col != NameColumn ==> r == c
  {
    var v := if col == NameColumn && c.Some? then Some(StripApostrophes(c.value)) else c;
    if v.Some? && (IsNanLike(v.value) || IsEmpty(v.value)) then None else v
  }

  /** `clean` on one column: the name and the number of rows are kept, and each cell is cleaned. */
  function CleanColumn(c: Column): (r: Column)
    ensures r.name == c.name && |r.cells| == |c.cells|
    ensures forall row | 0 <= row < |c.cells| :: r.cells[row] == CleanCell(c.name, c.cells[row])
  {
    Column(c.name, seq(|c.cells|, r requires 0 <= r < |c.cells| => CleanCell(c.name, c.cells[r])))
  }

  /**
    The table `clean` returns, described cell by cell: the same rows, no more columns
    than before, and none of them missing in every row.
  */
  function Cleaned(t: Table): (r: Table)
    ensures r.indexName == t.indexName && r.index == t.index
    ensures |r.columns| <= |t.columns|
    ensures forall k | 0 <= k < |r.columns| :: !AllNull(r.columns[k])
  {
    var cols := seq(|t.columns|, i requires 0 <= i < |t.columns| => CleanColumn(t.columns[i]));
    var ps := KeptPositions(cols);
    assert forall k | 0 <= k < |ps| :: ps[k] in ps;
    Table(t.indexName, t.index, KeepNonNull(cols))
  }

  /**
    `clean`: the copy made by `astype` is updated statement by statement. Fails with a
    KeyError when there is no `name` column and with an AttributeError when there are
    several; otherwise returns the cell-wise cleaned table.
  */
  method Clean(t: Table) returns (r: Result<Table, CleanError>)
    ensures r.Failure? <==> !HasColumn(t.columns, NameColumn) || RepeatedColumn(t.columns, NameColumn)
    ensures !HasColumn(t.columns, NameColumn) ==> r == Failure(KeyError(NameColumn))
    ensures HasColumn(t.columns, NameColumn) && RepeatedColumn(t.columns, NameColumn) ==>
      r == Failure(AttributeError(NameColumn))
    ensures r.Success? ==> r.value == Cleaned(t)
  {
    var df := t;
    if !HasColumn(df.columns, NameColumn) {
      return Failure(KeyError(NameColumn));
    }
    if RepeatedColumn(df.columns, NameColumn) {
      return Failure(AttributeError(NameColumn));
    }
    df := MapColumns(df, StripNameCells);
    df := MapColumns(df, c => NullWhere(c, IsNanLike));
    df := MapColumns(df, c => NullWhere(c, IsEmpty));
    forall i | 0 <= i < |t.columns|
      ensures df.columns[i] == CleanColumn(t.columns[i])
    {
      var c := t.columns[i];
      assert df.columns[i].cells == CleanColumn(c).cells;
    }
    ghost var cols := seq(|t.columns|, i requires 0 <= i < |t.columns| => CleanColumn(t.columns[i]));
    assert df.columns == cols;
    df := df.(columns := KeepNonNull(df.columns));
    return Success(df);
  }

  /** Cleaning keeps the row index and one cell per row. */
  lemma CleanedShape(t: Table)
    requires Rectangular(t)
    ensures Cleaned(t).index == t.index && Cleaned(t).indexName == t.indexName
    ensures Rectangular(Cleaned(t))
  {
    var cols := seq(|t.columns|, i requires 0 <= i < |t.columns| => CleanColumn(t.columns[i]));
  }

  /**
    The columns of the cleaned table are the cleaned input columns that hold a value
    somewhere, in their input order; each cell is the cleaned input cell.
  */
  lemma CleanedColumns(t: Table)
    ensures var ps := KeptPositions(seq(|t.columns|, i requires 0 <= i < |t.columns| => CleanColumn(t.columns[i])));
      && |ps| == |Cleaned(t).columns|
      && (forall k, l | 0 <= k < l < |ps| :: ps[k] < ps[l])
      && (forall k | 0 <= k < |ps| :: ps[k] < |t.columns|
            && Cleaned(t).columns[k].name == t.columns[ps[k]].name
            && |Cleaned(t).columns[k].cells| == |t.columns[ps[k]].cells|
            && forall row | 0 <= row < |t.columns[ps[k]].cells| ::
                 Cleaned(t).columns[k].cells[row] == CleanCell(t.columns[ps[k]].name, t.columns[ps[k]].cells[row]))
      && (forall i | 0 <= i < |t.columns| ::
            i !in ps <==> forall row | 0 <= row < |t.columns[i].cells| ::
                            CleanCell(t.columns[i].name, t.columns[i].cells[row]).None?)
  {
    var cols := seq(|t.columns|, i requires 0 <= i < |t.columns| => CleanColumn(t.columns[i]));
    forall i | 0 <= i < |t.columns|
      ensures AllNull(cols[i]) <==> forall row | 0 <= row < |t.columns[i].cells| ::
                                      CleanCell(t.columns[i].name, t.columns[i].cells[row]).None?
    {
      assert forall row | 0 <= row < |t.columns[i].cells| ::
        cols[i].cells[row] == CleanCell(t.columns[i].name, t.columns[i].cells[row]);
    }
  }

  /** No present cell is empty or a "not applicable" word, and names have apostrophe-free ends. */
  predicate HoldsCleanValues(c: Column) {
    forall row | 0 <= row < |c.cells| && c.cells[row].Some? ::
      && c.cells[row].value != ""
      && !IsNanLike(c.cells[row].value)
      && (c.name == NameColumn ==> NoEdgeApostrophe(c.cells[row].value))
  }

  lemma CleanColumnHoldsCleanValues(c: Column)
    ensures HoldsCleanValues(CleanColumn(c))
  {
    var r := CleanColumn(c);
    forall row | 0 <= row < |r.cells| && r.cells[row].Some?
      ensures r.cells[row].value != "" && !IsNanLike(r.cells[row].value)
      ensures r.name == NameColumn ==> NoEdgeApostrophe(r.cells[row].value)
    {
      assert r.cells[row] == CleanCell(c.name, c.cells[row]);
    }
  }

  /**
    After cleaning no cell holds the empty string or a "not applicable" word, and
    every page name has apostrophe-free ends.
  */
  lemma CleanedCellsAreClean(t: Table)
    ensures forall k | 0 <= k < |Cleaned(t).columns| :: HoldsCleanValues(Cleaned(t).columns[k])
  {
    var cols := seq(|t.columns|, i requires 0 <= i < |t.columns| => CleanColumn(t.columns[i]));
    var ps := KeptPositions(cols);
    forall k | 0 <= k < |Cleaned(t).columns| ensures HoldsCleanValues(Cleaned(t).columns[k]) {
      assert Cleaned(t).columns[k] == CleanColumn(t.columns[ps[k]]);
      CleanColumnHoldsCleanValues(t.columns[ps[k]]);
    }
  }

  /**
    Outside the `name` column a present value is nulled exactly when it is empty or
    lower-cases to one of the "not applicable" words; otherwise it is kept unchanged.
    A missing cell stays missing.
  */
  lemma CleanCellOutsideName(col: string, v: string)
    requires col != NameColumn
    ensures CleanCell(col, Some(v)) == (if v == "" || Lower(v) in NanLikes then None else Some(v))
    ensures CleanCell(col, None) == None
  {
  }

  /** In the `name` column the same rule applies to the stripped value. */
  lemma CleanCellInName(v: string)
    ensures var s := StripApostrophes(v);
      CleanCell(NameColumn, Some(v)) == (if s == "" || Lower(s) in NanLikes then None else Some(s))
  {
  }
}

/**
  The column list of the full-text table (`make_table` in mycota/data.py): the name of
  the row index followed by every column name, separated by `", "`. Reading the list
  back, by splitting at the commas and dropping the space after each, gives the names
  again when none of them contains a comma.
*/
module ColumnList {
  import opened Strings
  import opened Frames

  const Separator := ", "

  /** `df.index.name + ', ' + df.columns.str.cat(sep=', ')`. */
  function Fts5Columns(t: Table): (r: string)
    ensures |r| >= |t.indexName| + |Separator|
    ensures r[..|t.indexName|] == t.indexName
    ensures r[|t.indexName|..|t.indexName| + |Separator|] == Separator
  {
    t.indexName + Separator + Join(Names(t.columns), Separator)
  }

  /** Python's `s.split(',')`: the pieces between commas, at least one. */
  function SplitCommas(s: string): (r: seq<string>)
    ensures |r| >= 1
    ensures forall i | 0 <= i < |r| :: ',' !in r[i]
  {
    if s == [] then [""]
    else
      var rest := SplitCommas(s[1..]);
      if s[0] == ',' then [""] + rest
      else [[s[0]] + rest[0]] + rest[1..]
  }

  /** One field of the list, without the space the separator put before it. */
  function DropSpace(f: string): string {
    if |f| > 0 && f[0] == ' ' then f[1..] else f
  }

  /** The names a column list holds: split at the commas, each later field without its leading space. */
  function ParseColumnList(s: string): (names: seq<string>)
    ensures |names| == |SplitCommas(s)|
  {
    var fields := SplitCommas(s);
    [fields[0]] + seq(|fields| - 1, i requires 0 <= i < |fields| - 1 => DropSpace(fields[i + 1]))
  }

  lemma {:induction false} SplitCommasPlain(a: string)
    requires ',' !in a
    ensures SplitCommas(a) == [a]
  {
    if a != [] {
      assert a[0] != ',' && ',' !in a[1..];
      SplitCommasPlain(a[1..]);
      assert [a[0]] + a[1..] == a;
    }
  }

  lemma {:induction false} SplitCommasAfter(a: string, b: string)
    requires ',' !in a
    ensures SplitCommas(a + "," + b) == [a] + SplitCommas(b)
  {
    if a == [] {
      assert a + "," + b == [','] + b;
      assert (a + "," + b)[1..] == b;
    } else {
      assert (a + "," + b)[1..] == a[1..] + "," + b;
      assert a[0] != ',' && ',' !in a[1..];
      SplitCommasAfter(a[1..], b);
      assert [a[0]] + a[1..] == a;
    }
  }

  /** Splitting a `", "`-join of comma-free names gives the names, each after the first with a space in front. */
  lemma {:induction false} SplitJoin(xs: seq<string>)
    requires |xs| >= 1 && forall i | 0 <= i < |xs| :: ',' !in xs[i]
    ensures SplitCommas(Join(xs, Separator)) == [xs[0]] + seq(|xs| - 1, i requires 0 <= i < |xs| - 1 => " " + xs[i + 1])
  {
    if |xs| == 1 {
      SplitCommasPlain(xs[0]);
    } else {
      var rest := xs[1..];
      var j := Join(rest, Separator);
      assert Join(xs, Separator) == xs[0] + "," + (" " + j);
      SplitCommasAfter(xs[0], " " + j);
      SplitJoin(rest);
      SplitSpaced(j, rest);
      var spaced := seq(|rest|, i requires 0 <= i < |rest| => " " + rest[i]);
      assert spaced == seq(|xs| - 1, i requires 0 <= i < |xs| - 1 => " " + xs[i + 1]);
    }
  }

  /** Fields that each carry one leading space read back without it. */
  lemma ParseSpacedFields(s: string, head: string, xs: seq<string>)
    requires SplitCommas(s) == [head] + seq(|xs|, i requires 0 <= i < |xs| => " " + xs[i])
    ensures ParseColumnList(s) == [head] + xs
  {
    var fields := SplitCommas(s);
    var parsed := ParseColumnList(s);
    var want := [head] + xs;
    assert |parsed| == |want|;
    forall k | 0 <= k < |want| ensures parsed[k] == want[k] {
      if k > 0 {
        assert fields[k] == " " + xs[k - 1];
        assert DropSpace(" " + xs[k - 1]) == xs[k - 1];
      }
    }
  }

  /** A leading character other than a comma joins the first field. */
  lemma SplitCommasCons(c: char, s: string)
    requires c != ','
    ensures SplitCommas([c] + s) == [[c] + SplitCommas(s)[0]] + SplitCommas(s)[1..]
  {
    assert ([c] + s)[1..] == s;
  }

  /** Fields that each carry one leading space, after a first field that gets one put in front. */
  lemma SplitSpaced(j: string, xs: seq<string>)
    requires |xs| >= 1
    requires SplitCommas(j) == [xs[0]] + seq(|xs| - 1, i requires 0 <= i < |xs| - 1 => " " + xs[i + 1])
    ensures SplitCommas(" " + j) == seq(|xs|, i requires 0 <= i < |xs| => " " + xs[i])
  {
    var tail := SplitCommas(j);
    SplitCommasCons(' ', j);
    var got := SplitCommas(" " + j);
    forall i | 0 <= i < |xs| ensures got[i] == " " + xs[i] {
      if i > 0 {
        assert got[i] == tail[i];
      }
    }
  }

  /** The part after the first separator's comma: every name with its space in front. */
  lemma SplitSpacedJoin(xs: seq<string>)
    requires |xs| >= 1 && forall i | 0 <= i < |xs| :: ',' !in xs[i]
    ensures SplitCommas(" " + Join(xs, Separator)) == seq(|xs|, i requires 0 <= i < |xs| => " " + xs[i])
  {
    SplitJoin(xs);
    SplitSpaced(Join(xs, Separator), xs);
  }

  /** Splitting a head and a `", "`-join of comma-free names at the commas. */
  lemma SplitJoined(head: string, xs: seq<string>)
    requires ',' !in head && |xs| >= 1 && forall i | 0 <= i < |xs| :: ',' !in xs[i]
    ensures SplitCommas(head + Separator + Join(xs, Separator)) == [head] + seq(|xs|, i requires 0 <= i < |xs| => " " + xs[i])
  {
    var j := Join(xs, Separator);
    assert head + Separator + j == head + "," + (" " + j);
    SplitCommasAfter(head, " " + j);
    SplitSpacedJoin(xs);
  }

  /** A head and a `", "`-join of further comma-free names read back as the head and those names. */
  lemma ParseJoined(head: string, xs: seq<string>)
    requires ',' !in head && |xs| >= 1 && forall i | 0 <= i < |xs| :: ',' !in xs[i]
    ensures ParseColumnList(head + Separator + Join(xs, Separator)) == [head] + xs
  {
    SplitJoined(head, xs);
    ParseSpacedFields(head + Separator + Join(xs, Separator), head, xs);
  }

  /**
    Reading the column list back gives the index name followed by the column names in
    order (a frame without columns leaves one empty field after the index name), as
    long as no name contains a comma.
  */
  lemma Fts5ColumnsRoundTrip(t: Table)
    requires ',' !in t.indexName && forall c | c in t.columns :: ',' !in c.name
    ensures ParseColumnList(Fts5Columns(t)) == [t.indexName] + (if t.columns == [] then [""] else Names(t.columns))
  {
    var names := Names(t.columns);
    if t.columns == [] {
      assert Fts5Columns(t) == t.indexName + "," + " ";
      SplitCommasAfter(t.indexName, " ");
      SplitCommasPlain(" ");
      ParseSpacedFields(Fts5Columns(t), t.indexName, [""]);
    } else {
      forall i | 0 <= i < |names| ensures ',' !in names[i] {
        assert t.columns[i] in t.columns;
      }
      ParseJoined(t.indexName, names);
    }
  }
}

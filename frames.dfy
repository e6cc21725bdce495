/**
  The data frame that the cleanup works on: a row index of page ids (the index is
  named, normally `pageid`) and an ordered list of named columns whose cells are
  strings or missing (pandas' `NA` of the string dtype).
*/
module Frames {
  import opened Wrappers

  type PageId = int

  datatype Column = Column(name: string, cells: seq<Option<string>>)

  datatype Table = Table(indexName: string, index: seq<PageId>, columns: seq<Column>)

  function NameOf(c: Column): string {
    c.name
  }

  function Names(cols: seq<Column>): (ns: seq<string>)
    ensures |ns| == |cols|
    ensures forall i | 0 <= i < |cols| :: ns[i] == cols[i].name
  {
    seq(|cols|, i requires 0 <= i < |cols| => cols[i].name)
  }

  /** Every column has one cell per row. */
  predicate Rectangular(t: Table) {
    forall c | c in t.columns :: |c.cells| == |t.index|
  }

  predicate DistinctNames(cols: seq<Column>) {
    forall i, j | 0 <= i < j < |cols| :: cols[i].name != cols[j].name
  }

  predicate HasColumn(cols: seq<Column>, name: string) {
    exists i | 0 <= i < |cols| :: cols[i].name == name
  }

  /** `isna().all()` for one column: true of a column with no rows. */
  predicate AllNull(c: Column) {
    forall r | 0 <= r < |c.cells| :: c.cells[r].None?
  }

  /** The position of the first column with the given name, if any. */
  function IndexOf(cols: seq<Column>, name: string): (r: Option<nat>)
    ensures r.None? <==> !HasColumn(cols, name)
    ensures r.Some? ==> r.value < |cols| && cols[r.value].name == name
    ensures r.Some? ==> forall j | 0 <= j < r.value :: cols[j].name != name
  {
    if cols == [] then None
    else if cols[0].name == name then Some(0)
    else
      match IndexOf(cols[1..], name)
      case None =>
        assert forall i | 0 < i < |cols| :: cols[i] == cols[1..][i - 1];
        None
      case Some(k) => Some(k + 1)
  }

  /** `df[name]`: the column with that name (a KeyError when there is none). */
  function Lookup(cols: seq<Column>, name: string): (c: Column)
    requires HasColumn(cols, name)
    ensures c in cols && c.name == name
  {
    cols[IndexOf(cols, name).value]
  }

  /** `df[names]`: the columns with the given names, in the order of the names. */
  function Select(cols: seq<Column>, names: seq<string>): (r: seq<Column>)
    requires forall g | 0 <= g < |names| :: HasColumn(cols, names[g])
    ensures |r| == |names|
    ensures forall g | 0 <= g < |names| :: r[g] == Lookup(cols, names[g])
  {
    seq(|names|, g requires 0 <= g < |names| => Lookup(cols, names[g]))
  }

  /** `df[name] = cells`: overwrites the column of that name, or appends a new one. */
  function SetColumn(cols: seq<Column>, name: string, cells: seq<Option<string>>): (r: seq<Column>)
    ensures HasColumn(cols, name) ==> |r| == |cols|
    ensures HasColumn(cols, name) ==> forall j | 0 <= j < |cols| ::
      r[j] == if j == IndexOf(cols, name).value then Column(name, cells) else cols[j]
    ensures !HasColumn(cols, name) ==> r == cols + [Column(name, cells)]
  {
    match IndexOf(cols, name)
    case Some(i) => cols[i := Column(name, cells)]
    case None => cols + [Column(name, cells)]
  }

  /** Looking a name up in a longer frame finds the same column as in its prefix. */
  lemma LookupInPrefix(prefix: seq<Column>, rest: seq<Column>, name: string)
    requires HasColumn(prefix, name)
    ensures HasColumn(prefix + rest, name)
    ensures Lookup(prefix + rest, name) == Lookup(prefix, name)
  {
    var i := IndexOf(prefix, name).value;
    assert (prefix + rest)[i] == prefix[i];
    var j := IndexOf(prefix + rest, name).value;
    assert j <= i;
    assert (prefix + rest)[j] == prefix[j];
  }

  /** With distinct names, looking up a column's own name finds that column. */
  lemma LookupDistinct(cols: seq<Column>, p: nat)
    requires DistinctNames(cols) && p < |cols|
    ensures HasColumn(cols, cols[p].name)
    ensures Lookup(cols, cols[p].name) == cols[p]
  {
    var j := IndexOf(cols, cols[p].name).value;
    assert j == p;
  }
}

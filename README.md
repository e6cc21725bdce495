# mycota, modelled in Dafny

mycota collects the "Mycomorphbox" infobox of every mushroom page on Wikipedia into one
table and helps pick colours for it. This project models two parts of it.

- **The data pipeline of `mycota/data.py`.**
  - `clean` strips apostrophes from page names, nulls the "not applicable" words and the
    empty strings, and drops the columns that are then all missing.
  - `collate` sorts the columns by name and renumbers every repeated template parameter.
    For example, `colour`, `colour2` become `colour1`, `colour2`. It then adds one column per
    such parameter, holding the `", "`-join of each row's values.
  - `make_table` builds the column list of the full-text table.
- **The colour plane of `mycota/colour_picker.py`.**
  - The table of 21 named template colours, their integer array and their `#rrggbb` strings.
  - The check of the least-squares plane `ax + by + cz = 255` fitted through them.
  - The 40 by 40 grid of colours on that plane, with its out-of-range mask and grey fill.
  - The projection of every colour onto the plane along its normal.
  - The `#rrggbb` strings of the projected colours.

A frame is a `Frames.Table`: the name of its row index, the index labels, and a sequence
of named columns of `Option<string>` cells (`None` is pandas' missing value). `clean` and
`collate` both start from a copy of their argument (`astype`, `sort_index`), so the model
gives them value semantics. `Clean.Clean` and `Collate.Collate` are methods whose local
frame is reassigned statement by statement, as the source does. The `for stem, group`
loop of `collate` is the `while` loop of `Collate.AddStemColumns`. The mask of
`rgb_float` is applied in place to an `array2` by `Plane.MaskOverRange`. Every colour
computation is over the reals.

Modules: `Wrappers` (Option, Result), `Strings`, `Sorting` (insertion sort by a string
key), `Frames`, `Clean`, `Collate`, `ColumnList`, `Colours`, `Plane`.

The least-squares solve itself is not modelled. Its result (solution, residuals, rank,
singular values) is an input of `Plane.CheckFit`, and the later computations take the
fitted plane as a parameter. The source divides by `plane[0]`, so those computations
require it to be non-zero.

`colour_picker.py` fits `colour · plane = 255` without normalising the normal. It
projects along the unnormalised normal through the point `(255/plane[0], 0, 0)`.

## Model

| member | source | states |
|---|---|---|
| Clean.StripApostrophes | mycota/data.py:18-22 | the result has no apostrophe at either end and is the middle of the name between a leading and a trailing run of apostrophes |
| Clean.StripApostrophesExact | mycota/data.py:18-22 | a middle whose ends are not apostrophes, wrapped in any runs of apostrophes, is recovered exactly |
| Clean.StripApostrophesKeepsClean | mycota/data.py:18-22 | a name with no apostrophe at either end is left unchanged |
| Clean.StripApostrophesIdempotent | mycota/data.py:18-22 | stripping twice gives the same as stripping once |
| Clean.StripAllApostrophes | mycota/data.py:18-22 | a name made only of apostrophes becomes the empty string, which line 34 then nulls |
| Clean.KeptPositions | mycota/data.py:37 | increasing in-range positions; a position is listed if and only if its column holds a value in some row |
| Clean.KeepNonNull | mycota/data.py:37 | the kept columns are exactly the columns at the kept positions, in their original order |
| Clean.Clean | mycota/data.py:14-39 | fails with a KeyError when there is no `name` column and with an AttributeError when several columns are named `name` (`df['name']` is then a frame without `.str`); otherwise returns the cleaned table |
| Clean.StripNameCells | mycota/data.py:18-22 | only the `name` column changes; a missing name stays missing and a present one becomes its stripped value, with no apostrophe at either end |
| Clean.NullWhere | mycota/data.py:26-34 | a cell is missing afterwards exactly when it was missing or its value matches the mask; other cells are kept |
| Clean.IsNanLike | mycota/data.py:25-30 | one of no, na, n/a, none in any letter case, so two to four characters long |
| Clean.IsNanLikeIgnoresCase | mycota/data.py:25-30 | lower-casing a value first does not change whether it is masked |
| Clean.CleanColumn | mycota/data.py:17-34 | the column keeps its name and its number of rows, and each cell is the cleaned cell |
| Clean.CleanCell | mycota/data.py:17-34 | a missing cell stays missing; a surviving value is neither empty nor a "not applicable" word, has apostrophe-free ends in `name`, and is unchanged in any other column |
| Clean.Cleaned | mycota/data.py:14-39 | the same row index, no more columns than the input, and no column missing in every row |
| Clean.CleanedShape | mycota/data.py:14-39 | cleaning keeps the row index and its name, and every kept column has one cell per row |
| Clean.CleanedColumns | mycota/data.py:24-37 | each output column is an input column, in input order, with every cell cleaned; an input column is dropped if and only if all its cleaned cells are missing |
| Clean.CleanColumnHoldsCleanValues | mycota/data.py:17-34 | a cleaned column holds no empty string, no "not applicable" word in any letter case, and no page name with an apostrophe at either end |
| Clean.CleanedCellsAreClean | mycota/data.py:17-37 | every column of the cleaned table holds only clean values |
| Clean.CleanCellOutsideName | mycota/data.py:24-34 | outside `name`, a value is nulled if and only if it is empty or lower-cases to no, na, n/a or none; a missing cell stays missing |
| Clean.CleanCellInName | mycota/data.py:17-34 | in `name`, the same rule applies to the value after its apostrophes are stripped |
| Collate.SplitName | mycota/data.py:46-51 | stem followed by suffix gives back the name; the suffix is all digits; the stem is non-empty and ends in a non-digit unless it is one character long |
| Collate.SplitNameUnique | mycota/data.py:46-51 | this split is the only one with those properties, so the regular expression's lazy stem and digit suffix are matched exactly |
| Collate.Pieces | mycota/data.py:46-52 | one piece per sorted column, in column order, each the split of that column's name |
| Collate.SuffixedStems | mycota/data.py:55 | `pieces.loc[pieces['idx'] != '', 'stem']`: holds a stem if and only if some piece with that stem has a non-empty suffix |
| Collate.MultiStems | mycota/data.py:55 | holds a stem if and only if some column with that stem has a non-empty digit suffix, each stem once |
| Collate.Dedup | mycota/data.py:55 | keeps exactly the elements of its input, each once |
| Collate.Members | mycota/data.py:58-60 | the positions of the columns with a given stem, in increasing order |
| Collate.NewName | mycota/data.py:62-71 | a column of a multi-column stem is renamed to the stem followed by a non-empty run of digits; any other column keeps its name |
| Collate.MembersComplete | mycota/data.py:58-60 | every column with that stem is among those positions |
| Collate.NewNameRank | mycota/data.py:62-65 | the g-th column (from 0) of a multi-column stem is renamed to the stem followed by the decimal of g + 1 |
| Collate.RenamedDistinct | mycota/data.py:62-71 | two distinct column names never get the same new name |
| Collate.RenamedNames | mycota/data.py:67-71 | after renaming, all column names are distinct and none equals a multi-column stem |
| Collate.NewNames | mycota/data.py:62-71 | one new name per sorted column, in column order, each that column's `newname` |
| Collate.Renamed | mycota/data.py:68-71 | renaming changes each column's name and keeps its cells |
| Collate.SortedColumns | mycota/data.py:43 | `sort_index(axis='columns')`: a permutation of the columns in strictly increasing name order, each with one cell per row |
| Sorting.SortBy | mycota/data.py:43 | the result is a permutation of its input, strictly increasing by key |
| Sorting.Insert | mycota/data.py:43 | inserting an element with a new key into a sorted sequence gives a sorted sequence with one more element |
| Sorting.SortByElement | mycota/data.py:43 | every element of the sorted sequence comes from the input |
| Strings.Below | mycota/data.py:43 | Python's `<` on names, by code point: never holds between equal names |
| Strings.PrefixBelow | mycota/data.py:43 | a proper prefix of a name comes before it |
| Strings.BelowTotal | mycota/data.py:43 | two different names are ordered one way or the other |
| Strings.BelowTransitive | mycota/data.py:43 | the name order is transitive |
| Strings.BelowAsymmetric | mycota/data.py:43 | the name order is asymmetric |
| Collate.SortedPieces | mycota/data.py:43-52 | one piece per sorted column, the split of its name |
| Collate.Renumbered | mycota/data.py:43-71 | the sorted columns, each with its new name and its own cells; the names are distinct and none equals a multi-column stem |
| Collate.Groups | mycota/data.py:73 | `groupby('stem')` visits exactly the multi-column stems, once each, in increasing order |
| Collate.StemColumns | mycota/data.py:73-79 | one added column per visited stem, named after it, with one cell per row |
| Collate.StemColumnsAt | mycota/data.py:73-79 | the k-th added column holds, row by row, the joined cells of the stem's columns |
| Collate.Added | mycota/data.py:73-79 | one added column per multi-column stem, named after the stem, with one cell per row |
| Collate.Present | mycota/data.py:76 | `stack()` drops the missing cells: one value per present cell, each present cell's value placed after those of the present cells before it; nothing is left if and only if every cell is missing |
| Collate.JoinPresent | mycota/data.py:76-78 | a row's cell is missing if and only if all the stem's cells in that row are missing; otherwise it is the `", "`-join of the present ones |
| Collate.Row | mycota/data.py:75-76 | the cells of the selected columns in one row, in column order |
| Collate.JoinRows | mycota/data.py:74-79 | one joined cell per row |
| Collate.StemCells | mycota/data.py:74-79 | one cell per row, each the join of the row's present values in the stem's columns |
| Collate.AtPositions | mycota/data.py:75 | the columns at the given positions, in that order |
| Frames.Select | mycota/data.py:75 | `df[names]`: the column with each name, in the order of the names |
| Frames.IndexOf | mycota/data.py:75 | the first position holding the name; none if and only if no column has it |
| Frames.Lookup | mycota/data.py:75 | a column of the frame with that name |
| Frames.SetColumn | mycota/data.py:74 | an existing column of that name is overwritten in place and nothing else changes; otherwise the new column is appended |
| Frames.LookupInPrefix | mycota/data.py:74-75 | adding columns after a name does not change what the name looks up |
| Frames.LookupDistinct | mycota/data.py:75 | with distinct names, looking up a column's name finds that column |
| Collate.AddStemStep | mycota/data.py:73-79 | one pass of the loop: every renamed member is found, the selection is the stem's columns, and the assignment appends that stem's joined column |
| Collate.AddStemColumns | mycota/data.py:73-79 | the loop leaves the renamed columns unchanged and appends one joined column per stem, in stem order |
| Collate.Collate | mycota/data.py:42-80 | the method's result is the collated table |
| Collate.Collated | mycota/data.py:42-80 | same row index; the first columns carry the sorted input cells; the added columns come in increasing name order; every column has one cell per row |
| Collate.CollatedNamesDistinct | mycota/data.py:67-79 | the collated table has distinct column names, so no added column overwrites an existing one |
| Collate.CollatedPrefix | mycota/data.py:67-80 | the first columns of the result are the renumbered sorted columns |
| Collate.CollatedRenumbering | mycota/data.py:62-71 | the g-th column of a multi-column stem is renamed to the stem followed by the decimal of g + 1 |
| Collate.CollatedKeepsName | mycota/data.py:67-71 | a column whose stem has no suffixed column keeps its name |
| Collate.StemValues | mycota/data.py:74-76 | one value per column of the stem, taken from the given row |
| Collate.StemColumnAt | mycota/data.py:74-78 | the k-th added column is named after the k-th stem and holds the join of its members' cells |
| Collate.RenumberedRow | mycota/data.py:74-76 | renaming does not change which cells a stem's columns hold in a row |
| Collate.CollatedColumns | mycota/data.py:67-79 | the collated columns are the renumbered columns followed by one joined column per stem |
| Collate.StemColumnCell | mycota/data.py:74-78 | a stem's joined cell depends only on the cells of the stem's columns, so renaming does not change it |
| Collate.CollatedStemColumn | mycota/data.py:73-79 | the result has one added column per multi-column stem; each row of it holds the join of that stem's present values in that row, or is missing when they all are |
| Strings.Lower | mycota/data.py:25 | every ASCII capital becomes its small letter, every other character is kept, and no capital remains |
| Strings.Join | mycota/data.py:78 | `sep.join`: empty for no strings, otherwise it starts with the first string, followed by the separator when there are more; `ColumnList.SplitJoin` reads it back |
| Strings.Decimal | mycota/data.py:64-65 | `astype(str)` of a count: a non-empty string of decimal digits |
| Strings.DecimalRoundTrip | mycota/data.py:64-65 | the digits read back as the number they were written from |
| Strings.DecimalInjective | mycota/data.py:64-65 | distinct counts give distinct suffixes |
| ColumnList.Fts5Columns | mycota/data.py:93 | the column list starts with the index name followed by `", "` |
| ColumnList.SplitCommas | mycota/data.py:93 | splitting at the commas gives at least one field and no field holds a comma |
| ColumnList.SplitJoin | mycota/data.py:93 | splitting a `", "`-join of comma-free names gives the names, each after the first with a space in front |
| ColumnList.ParseJoined | mycota/data.py:93 | a head and a `", "`-join of comma-free names read back as the head and those names |
| ColumnList.Fts5ColumnsRoundTrip | mycota/data.py:93 | with comma-free names, reading the list back gives the index name and then the column names in order |
| Colours.TableTriples | mycota/colour_picker.py:7-29 | the table has 21 colours, each of exactly three bytes |
| Colours.ColourArray | mycota/colour_picker.py:31 | one row per colour, in table order, holding its three bytes as integers in [0, 255] |
| Colours.HexDigitValue | mycota/colour_picker.py:33 | a hex digit reads back as the number it was written from |
| Colours.Hex2 | mycota/colour_picker.py:33 | `:02x`: exactly two lowercase hex digits |
| Colours.Hex2Value | mycota/colour_picker.py:33 | two hex digits read as a number are written back as the same digits |
| Colours.ColourStr | mycota/colour_picker.py:32-35 | a `#` followed by six lowercase hex digits |
| Colours.ColourStrRoundTrip | mycota/colour_picker.py:32-35 | every colour string reads back as the triple it was written from |
| Colours.ParseColourStrExact | mycota/colour_picker.py:32-35 | every string that reads as a triple is that triple's colour string, so the writing is onto the `#rrggbb` strings |
| Colours.ColourStrs | mycota/colour_picker.py:32-35 | one string per colour, in table order, each reading back as that colour's row of the array |
| Plane.CheckFit | mycota/colour_picker.py:38-42 | the plane is used if and only if there is exactly one residual and the rank is 3; otherwise the unpack error, or else the deficient-rank error |
| Plane.Channel | mycota/colour_picker.py:45 | the channel values lie in [0, 255], starting at 0 and ending at 255 |
| Plane.ChannelEvenlySpaced | mycota/colour_picker.py:45 | neighbouring channel values are 255/39 apart |
| Plane.SolveRed | mycota/colour_picker.py:49 | the solved red satisfies the plane equation `red · p0 = 255 - g · p1 - b · p2` |
| Plane.SolveRedOnPlane | mycota/colour_picker.py:49 | the solved red puts the point on the plane |
| Plane.GridCell | mycota/colour_picker.py:45-50 | cell [i, j] has green channel j and blue channel i, and lies on the plane |
| Plane.Masked | mycota/colour_picker.py:51 | a cell becomes NaN if and only if it already was or one of its channels exceeds 255; otherwise it is unchanged |
| Plane.MaskOverRange | mycota/colour_picker.py:51 | every cell of the array is replaced by its masked value |
| Plane.Shade | mycota/colour_picker.py:58 | NaN cells become grey (100, 100, 100); other cells are kept |
| Plane.GridImage | mycota/colour_picker.py:45-58 | a 40 by 40 image whose cell [i, j] is the masked, grey-filled grid cell |
| Plane.GridShade | mycota/colour_picker.py:49-58 | a cell is grey exactly when its solved red exceeds 255; a cell with negative red is kept |
| Plane.Offset | mycota/colour_picker.py:53 | the offset lies on the plane |
| Plane.NormPositive | mycota/colour_picker.py:56 | a plane with non-zero red coefficient has `w.dot(w) > 0` |
| Plane.NormSquared | mycota/colour_picker.py:56 | the divisor `w.dot(w)` is positive |
| Plane.Project | mycota/colour_picker.py:53-56 | a colour minus its projection is the plane's normal times the colour's offset along the normal divided by `w.dot(w)` |
| Plane.ProjectOnPlane | mycota/colour_picker.py:53-56 | every projected colour lies on the plane |
| Plane.ProjectFixesPlane | mycota/colour_picker.py:53-56 | a colour already on the plane projects to itself |
| Plane.ProjectIdempotent | mycota/colour_picker.py:53-56 | projecting twice is projecting once |
| Plane.Projected | mycota/colour_picker.py:54-56 | one projected colour per table colour, in order, each on the plane |
| Plane.Clip | mycota/colour_picker.py:65 | the result lies in [0, 255], equals the input inside that range, and is the nearer bound outside it |
| Plane.ToByte | mycota/colour_picker.py:65 | `astype(uint8)` on [0, 255]: the integer part, a byte |
| Plane.ClippedTriple | mycota/colour_picker.py:65 | the clipped and truncated channels are bytes |
| Plane.ProjStr | mycota/colour_picker.py:63-66 | a valid colour string reading back as the clipped channels with the fraction dropped, each within 1 below the clipped value |
| Plane.ProjStrs | mycota/colour_picker.py:63-66 | one string per colour, in table order, reading back as its clipped, truncated projection |

## Left out

- `mycota/api.py` and `mycota/entry.py` are not part of this model. Neither is the
  fetching, caching and SQL of `data.py` (`get_frame`, `connect_or_download`, the
  `execute` calls and the dump and query helpers). `make_table` is modelled only for the
  column list it builds. The SQL statement and the database are I/O.
- The plotting of `colour_picker.py` (lines 60-96) and the diagnostic `print` at line 43
  are display only.
- `np.linalg.lstsq` is not modelled. Its result is an input of `Plane.CheckFit`, so the
  fitted plane is a parameter and its optimality is not stated.
- Floating point is modelled as exact reals. IEEE rounding, `inf`, and NaN arithmetic
  other than the explicit mask are left out. So is the `astype(np.uint8)` of the grid at
  line 58: for negative reds it wraps.
- Plane.GridImage: requires `plane[0] != 0`. The source would divide by zero and fill the
  grid with `inf` and NaN. The same precondition is on every function after line 49.
- Strings.Lower: lower-cases the ASCII letters only. Python's `str.lower` also folds
  other Unicode letters, but the "not applicable" words are ASCII.
- Clean.Clean: the `astype(pd.StringDtype())` conversion of non-string cells is not
  modelled. Cells are strings or missing from the start.
- Clean.StripApostrophes: the regular expression's `.` does not match a newline. A name
  containing a line break is assumed not to occur.
- Collate.Collate: requires a frame with distinct, non-empty column names. pandas allows
  duplicate names, and an empty name makes `str.extract` return NaN.
- Collate.Collate: `groupby(level='pageid')` needs the row index to be named `pageid`.
  The model joins by row position and does not check the name. With repeated page ids
  the source joins the cells of all rows sharing an id and writes that one string into
  each of them; the model joins each row on its own, so it matches the source only when
  the page ids are distinct.
- Collate.SplitName: assumes ASCII column names without a newline. Python's `\d` also
  matches non-ASCII decimal digits, and the source's `.+?` and `$` treat a trailing
  newline differently (`"a1\n"` splits as `a` and `1` there).
- Collate.Collate: the inner merge at lines 58-60 is taken to keep the order of `pieces`,
  which pandas does for a merge on the left key's order.
- Colours.TableTriples: does not state that the colour names are distinct. A Python
  `dict` literal makes them distinct by construction; the model keeps the entries in
  insertion order only.
- ColumnList.Fts5ColumnsRoundTrip: holds only for names without a comma. A name with a
  comma would split into two fields.

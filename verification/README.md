# keylegend in Dafny

keylegend draws key legends for a macropad keyboard and composes them into a printable sheet.
A legend is a square SVG drawing with a title in its top-left corner and an action text centred on
one or two lines.
This project models the core of five Python scripts:

- **`create_keylegend.py`** draws a legend whose sizes, font families and colours are all given
  by the caller. A `$` in the action text splits it into two lines.
- **`keylegend.py`** draws the same legend with every constant fixed: key width 100, title size 12,
  action size 22, margin 5, Atkinson Hyperlegible. Its title and action come from the command line.
- **`generate_keyset.py`** reads CSV records, skips the header, and is meant to turn every data
  row into one legend. The legend of the k-th data row would be named `k-title-action.svg`. As
  written, its call to `create_keylegend` fails on the first valid data row (see Findings).
- **`svg_to_pdf.py`** places the `.svg` entries of a directory on one page. They are ordered by the
  integer before the first `-` of their names. Rows are closed at a maximum column count or at the
  right margin.
- **`combine_keyset.py`** is the older compositor. It orders entries by name as strings, uses an
  A4 page, and closes rows at the right margin only.

Modules:

- **`Results`:** `Option`, and `Result` with failure propagation.
- **`Strings`:** the Python string operations the scripts use. These are `split` on one character,
  `endswith`, `str(n)` and `int(s)`.
- **`Layout`:** the cursor machine both compositors share. The cursor (`x_offset`, `y_offset`,
  `column_count`, `new_height`) moves over the entries, and every placement is recorded. Page
  coordinates are exact reals with the origin at the bottom-left corner. `mm` is the size of a
  millimetre in page units.
- **`SvgToPdf`:** the prefix key, a stable sort by key, and the compositor with a column limit.
- **`CombineKeyset`:** Python's string order, the sort by name, and the A4 compositor without a
  column limit.
- **`Elements`:** the rectangle and text elements of a drawing, and the `$` split of the action
  text.
- **`CreateKeylegend`** and **`Keylegend`:** the two legend drawers.
- **`GenerateKeyset`:** the row validation and file naming of the batch driver. It also states how
  the names it writes are ordered by `SvgToPdf`.

Some behaviours are modelled as the code has them:

- **Unbound height.** A column limit of zero or less makes `svg_to_pdf.py` read `new_height`
  before it is ever assigned, which raises UnboundLocalError. The cursor therefore carries the last
  height as an `Option`, and that wrap yields `Err(HeightUnbound)`.
- **Prefixes of non-drawings.** The sort key is computed for every directory entry, not only the
  `.svg` ones. So a name without an integer prefix aborts the run even when it is not a drawing.
- **Icons.** These scripts draw no icons and embed no fonts. The legend drawn in
  `create_keylegend.py` has no icon. The only trace of an icon is the third CSV field of
  `generate_keyset.py`, which is read and then passed on (see Findings).

## Model

| member | source | states |
|---|---|---|
| Strings.EndsWith | svg_to_pdf.py:35 | `s.endswith(suffix)`; it has no contract of its own, and `Layout.IsSvg` uses it to pick the drawings |
| Strings.EndsWithIsSuffix | svg_to_pdf.py:35 | `s.endswith(suffix)` holds iff `s` is some text followed by `suffix` |
| Strings.FirstField | svg_to_pdf.py:27 | the first piece of `split(sep, 1)`: a prefix of the text with no separator in it; it is shorter than the text exactly when the text has a separator, and the separator follows it |
| Strings.Split | create_keylegend.py:40 | the pieces of `split('$')`: at least one; exactly one iff there is no separator; none contains the separator; the first is `FirstField`; joining them with the separator gives the text back |
| Strings.NatToDecimal | generate_keyset.py:17 | `str(n)`: a non-empty run of digits denoting `n`, with no leading zero |
| Strings.ParseInt | generate_keyset.py:14-15 | `int(s)` succeeds exactly on an optionally signed run of ASCII digits, and its value is the number the digits denote, negated after a `-` |
| Strings.LeadingZeroIgnored | generate_keyset.py:14-15 | a leading zero does not change the value: `int("0" + s) == int(s)` for every run of digits `s`, so `int("007") == 7` |
| Strings.ParseIntOfDecimal | generate_keyset.py:14-15 | `int(str(n)) == n` and `int("-" + str(n)) == -n` |
| SvgToPdf.Compose | svg_to_pdf.py:18-59 | `combine_svgs_to_pdf` fails on a prefix iff some entry has none; any other failure needs a column limit below one; a sheet never has more drawings than entries |
| SvgToPdf.ExtractPrefix | svg_to_pdf.py:26-28 | the key of a name is `int()` of the text before its first '-': defined exactly when that text parses, and equal to it |
| SvgToPdf.PrefixRoundTrip | svg_to_pdf.py:26-28 | a name `str(k) + "-" + rest` has key `k`, whatever `rest` holds |
| SvgToPdf.KeyAll | svg_to_pdf.py:26-30 | keys are computed for every entry in listing order; this succeeds iff every entry has a key, each keyed entry carrying its own key; otherwise the error names the first entry without one |
| SvgToPdf.SortByPrefix | svg_to_pdf.py:30 | the sort is a permutation of its input and ascending by key |
| SvgToPdf.SortIsStable | svg_to_pdf.py:30 | entries with equal keys keep their listing order |
| SvgToPdf.SortCommutesWithSvgFilter | svg_to_pdf.py:30-36 | sorting and then keeping the `.svg` entries equals keeping them and then sorting |
| SvgToPdf.DrawingOrder | svg_to_pdf.py:30-36 | the drawn entries are a permutation of the `.svg` entries, all drawings, with non-decreasing prefixes |
| SvgToPdf.DrawingOrderStable | svg_to_pdf.py:30 | drawings with the same prefix are drawn in listing order, as Python's stable `sorted` keeps them; with the permutation and the ascending prefixes this fixes the drawing order |
| SvgToPdf.DrawingOrderMembers | svg_to_pdf.py:30-36 | an entry is in the drawing order iff it is in the listing and is a `.svg` file |
| SvgToPdf.ComposeRejectsMissingPrefix | svg_to_pdf.py:26-30 | the run fails on a prefix iff some entry (drawing or not) has none, and the error names the first such entry |
| SvgToPdf.ComposeRunsDrawingOrder | svg_to_pdf.py:30-57 | with every prefix present, the sheet is the cursor machine run over the drawing order |
| SvgToPdf.ComposeIgnoresNonSvg | svg_to_pdf.py:26-36 | once every entry has an integer prefix, entries that are not `.svg` files change nothing: the sheet equals the sheet of the `.svg` entries alone (a non-drawing without a prefix still aborts the run, see `ComposeRejectsMissingPrefix`) |
| SvgToPdf.ComposeDrawsInOrder | svg_to_pdf.py:30-57 | a successful sheet draws each `.svg` entry once, in drawing order with ascending prefixes, at the key width and its own aspect ratio's height |
| SvgToPdf.ComposeFailsOnlyWithoutColumns | svg_to_pdf.py:38-41 | with every prefix present, a limit of at least one never fails; a limit of zero or less fails on the unbound height iff there is a drawing |
| SvgToPdf.ComposeStartsTopLeft | svg_to_pdf.py:31-32 | the first drawing is in column 1 at the left margin, hanging from 10 mm below the top edge, or one drawing-height lower if it is wider than the content area |
| SvgToPdf.ComposeGeometry | svg_to_pdf.py:38-57 | every drawing ends inside the right boundary or starts at the left margin, and sits in column 1..maxColumns; for non-negative sizes, none is above the top content edge and none is higher than its predecessor |
| SvgToPdf.ComposeGrid | svg_to_pdf.py:38-57 | for equal-sized drawings on a page wide enough for `maxColumns` of them, drawing i is in slot `i mod maxColumns` of row `i div maxColumns`, so rows wrap exactly every `maxColumns` items |
| Layout.Place | svg_to_pdf.py:38-57 | one step fails iff the column wrap fires with no height computed yet; otherwise it draws the entry at the key width and its scaled height, and the cursor afterwards is determined by that placement |
| Layout.PlaceRules | svg_to_pdf.py:38-57 | the column wrap drops by the previous drawing's height; the margin wrap, checked after it, drops by the current one; either wrap starts at the left margin in column 1, and otherwise the drawing goes at the cursor |
| Layout.Start | svg_to_pdf.py:31-32 | no contract of its own: `Layout.FirstPlacement` and `Layout.UniformGridFromStart` state where a run from it puts the first drawing and every later one |
| Layout.Run | svg_to_pdf.py:34-57 | the loop places one drawing per `.svg` entry, and fails iff its first drawing meets a full row with no height computed yet, because every placement leaves a height behind |
| Layout.SvgItems | svg_to_pdf.py:34-36 | the kept entries are exactly the `.svg` entries of the listing; a one-entry listing keeps its entry iff it is a `.svg` file |
| Layout.SvgItemsAppend | svg_to_pdf.py:34-36 | the filter distributes over concatenation, so with the one-entry case the `.svg` entries are kept in listing order, repeats included |
| Layout.SkipsNonSvg | svg_to_pdf.py:34-36 | running over a listing equals running over its `.svg` entries |
| Layout.PlacesSvgItemsInOrder | svg_to_pdf.py:46-56 | a successful run places each `.svg` entry once, in order, at the key width and its own scaled height |
| Layout.FirstPlacement | svg_to_pdf.py:31-55 | the first drawing of a run is in column 1 at the left margin, hanging from 10 mm below the top edge, or one drawing-height lower if it is wider than the content area |
| Layout.GeometryFromStart | svg_to_pdf.py:31-57 | from the initial cursor, every drawing fits or starts at the left margin and lies within the column limit if there is one; for non-negative sizes none is above the top content edge or above its predecessor |
| Layout.FitsOrStartsAtMargin | svg_to_pdf.py:50-55 | every placed drawing ends inside the right content boundary or starts at the left margin |
| Layout.TopNeverRises | svg_to_pdf.py:38-55 | for non-negative sizes no drawing hangs above the start height, and none above its predecessor |
| Layout.EachFollowsItsPredecessor | svg_to_pdf.py:34-57 | each drawing is placed from the cursor its predecessor left, so the machine's state is a function of the last placement |
| Layout.NeverFailsWithPositiveLimit | svg_to_pdf.py:38-41 | without a limit, or with a limit of at least one, the run never reads an unbound height |
| Layout.ColumnsWithinLimit | svg_to_pdf.py:38-57 | with a limit n >= 1 every drawing lands in column 1..n |
| Layout.NonPositiveLimitFails | svg_to_pdf.py:38-41 | with a limit of zero or less and no height yet, the run fails iff there is a drawing |
| Layout.UniformGrid | svg_to_pdf.py:38-57 | from any cursor on the grid, equal drawings on a wide-enough page fill the slots `(column + i) mod n` of successive rows, one drawing-height apart |
| Layout.UniformGridFromStart | svg_to_pdf.py:31-57 | from the initial cursor, the i-th equal drawing is in slot `i mod n` of row `i div n` below the top content edge |
| CombineKeyset.LexLe | combine_keyset.py:13 | no contract of its own: `LexLeTotal`, `LexLeTransitive` and `LexLeAntisymmetric` state that it is a total order, and `TenSortsBeforeTwo` that it compares as strings |
| CombineKeyset.A4 | combine_keyset.py:11-14 | no contract of its own: the page is 210 by 297 reportlab millimetres (`Mm`, 72/25.4 points) with no column limit; `ComposeStartsTopLeft` and `ComposeGeometry` state what this gives |
| CombineKeyset.LexLeTotal | combine_keyset.py:13 | Python's string order is total |
| CombineKeyset.LexLeTransitive | combine_keyset.py:13 | Python's string order is transitive |
| CombineKeyset.LexLeAntisymmetric | combine_keyset.py:13 | Python's string order is antisymmetric |
| CombineKeyset.TenSortsBeforeTwo | combine_keyset.py:13 | names sort as strings: "10-a.svg" comes before "2-b.svg" |
| CombineKeyset.SortByName | combine_keyset.py:13 | the sort is a permutation of the listing in ascending string order |
| CombineKeyset.SortedPermutationIsUnique | combine_keyset.py:13 | two name-sorted rearrangements of a listing with distinct names are equal |
| CombineKeyset.SortByNameIsTheSortedPermutation | combine_keyset.py:13 | for distinct names, every sorted rearrangement of the listing is exactly `SortByName`'s result |
| CombineKeyset.SortCommutesWithSvgFilter | combine_keyset.py:13-18 | sorting then keeping the `.svg` entries equals keeping them then sorting |
| CombineKeyset.DrawingOrder | combine_keyset.py:13-18 | the drawn entries are a permutation of the `.svg` entries, in ascending name order |
| CombineKeyset.Compose | combine_keyset.py:10-37 | with no column limit the cursor machine never fails on the A4 page |
| CombineKeyset.ComposeRunsDrawingOrder | combine_keyset.py:13-35 | the sheet is the cursor machine run over the drawing order |
| CombineKeyset.ComposeIgnoresNonSvg | combine_keyset.py:16-18 | entries that are not `.svg` files change nothing |
| CombineKeyset.ComposeDrawsInOrder | combine_keyset.py:13-25 | each `.svg` entry is drawn once, in ascending name order, at the key width and its own scaled height |
| CombineKeyset.ComposeStartsTopLeft | combine_keyset.py:14 | the first drawing is 10 mm from the left edge, hanging from 10 mm below the top of A4, or one drawing-height lower if it is wider than the content area |
| CombineKeyset.ComposeWrapsOnlyAtMargin | combine_keyset.py:30-35 | each drawing goes right next to the previous one at the same height when it fits inside the right boundary, and otherwise at the left margin one drawing-height lower |
| CombineKeyset.ComposeGeometry | combine_keyset.py:30-35 | every drawing ends inside the right boundary or starts at the left margin; for non-negative sizes, none is above the top content edge or above its predecessor |
| Elements.ActionLines | create_keylegend.py:34-40 | one line, the whole action, when there is no '$'; otherwise the first two '$'-free pieces, the second starting right after the first '$' |
| Elements.ActionLinesRoundTrip | create_keylegend.py:40 | two '$'-free lines joined by '$' split back into the same two lines |
| Elements.ActionLinesRecoverAction | create_keylegend.py:40 | the two lines with '$' between them are a prefix of the action, equal to it iff it has only one '$' |
| CreateKeylegend.CreateKeylegend | create_keylegend.py:21-46 | the canvas is KEY_WIDTH by KEY_WIDTH and holds the square, the title and one text per action line |
| CreateKeylegend.LegendOutline | create_keylegend.py:22-25 | three elements, or four exactly when the action has a '$'; first comes the square on the canvas border, filled with the background colour, with a 1-unit black stroke |
| CreateKeylegend.TitleInTopLeftCorner | create_keylegend.py:28-31 | the title is left-anchored one margin from the left edge, with its baseline one font size plus one margin below the top edge, in the title size, family and colour |
| CreateKeylegend.ActionLinesDrawn | create_keylegend.py:34-46 | each action line is drawn centred on the vertical axis, bold, ligatures off, in the action size, family and colour |
| CreateKeylegend.ActionLinesStraddleCentre | create_keylegend.py:34-46 | two action lines are one action font size apart and centred on the single-line height `(title size + 2·margin) / 2` |
| CreateKeylegend.DependsOnActionLinesOnly | create_keylegend.py:34-46 | actions with the same split lines give the same drawing |
| Keylegend.Keylegend | keylegend.py:26-50 | the fixed legend has the square, the title and one element per action line |
| Keylegend.Script | keylegend.py:23-24 | the script needs two arguments after its name, which are the title and the action; with fewer it fails |
| Keylegend.FixedOutlineAndTitle | keylegend.py:16-35 | the square is at (-50, -50) with side 100 and no fill; the title is bold, uncoloured, at (-45, -33) |
| Keylegend.FixedActionPositions | keylegend.py:37-50 | a single action line is at (0, 11); two lines are at (0, 0) and (0, 22) |
| Keylegend.MatchesCreateKeylegend | keylegend.py:26-50 | the fixed legend equals `create_keylegend` with sizes 12 and 22, Atkinson Hyperlegible and background `none` in everything but weight and fill: the fixed title is bold and uncoloured, and the fixed action lines are neither bold nor coloured |
| GenerateKeyset.ParseRow | generate_keyset.py:13-15 | a row is accepted iff it has ten fields and both font sizes parse; the fields map to the ten names in order; otherwise the error is the field count, or else the font size |
| GenerateKeyset.FileName | generate_keyset.py:17 | no contract of its own: `GenerateKeyset.NamesRoundTrip` states that the name ends in `.svg` and that `svg_to_pdf.py` reads its row number back from it |
| GenerateKeyset.Rows | generate_keyset.py:12-17 | no contract of its own: `RowsOk`, `RowsValues` and `RowsError` state when the corrected loop succeeds, what it writes and which error it reports |
| GenerateKeyset.Generate | generate_keyset.py:7-17 | no contract of its own: `GenerateSpec` states what the corrected driver writes and when it fails |
| GenerateKeyset.RowsAsWritten | generate_keyset.py:12-20 | the loop as written succeeds only with no data rows, and a valid first row fails on its call |
| GenerateKeyset.GenerateAsWritten | generate_keyset.py:7-20 | no contract of its own: `AsWrittenWritesNoLegend` states that as written it writes no legend |
| GenerateKeyset.RowsOk | generate_keyset.py:12-17 | the loop succeeds iff every data row is valid |
| GenerateKeyset.RowsValues | generate_keyset.py:12-17 | on success there is one legend per row, converted from that row and named after its own number |
| GenerateKeyset.RowsError | generate_keyset.py:12-17 | on failure the error is the one of the first invalid row |
| GenerateKeyset.GenerateSpec | generate_keyset.py:10-17 | a run succeeds iff there is a header and every data row is valid; the k-th data row's legend is `k-title-action.svg`; an empty file fails on the header; otherwise the first invalid row is reported by its number |
| GenerateKeyset.HeaderIgnored | generate_keyset.py:10 | the header row's content does not matter |
| GenerateKeyset.NamesRoundTrip | generate_keyset.py:17 | every generated name ends in `.svg` and its compositor prefix is its row number |
| GenerateKeyset.NamesDistinct | generate_keyset.py:17 | no two rows write the same file |
| GenerateKeyset.AscendingIsRowOrder | generate_keyset.py:17 | a repeat-free listing of exactly the generated names, in ascending prefix order, is in row order |
| GenerateKeyset.SheetFollowsRowOrder | generate_keyset.py:12-17 | whatever order the directory lists them in, `svg_to_pdf.py` draws the generated legends in row order, and the whole sheet succeeds for a column limit of at least one |
| GenerateKeyset.AsWrittenWritesNoLegend | generate_keyset.py:20 | as written, a run succeeds only with no data rows, and a valid first data row fails on its call; the corrected run writes one legend per data row when every data row is valid |
| GenerateKeyset.OneRowExample | generate_keyset.py:17-20 | a header plus one valid row fails with TypeError as written, while the corrected run writes `1-Copy-Ctrl$C.svg` |

## Left out

- **Rendering and files.** Rendering and file output are not modelled. This covers drawsvg, cairosvg, svglib, reportlab and `save_svg`/`save`. A legend is the list of elements it would save. A sheet is the list of placements it would draw.
- **Aspect ratio.** A drawing's native aspect ratio is an input of each directory entry. Measuring it needs the rasteriser.
- **Page size.** The page size is a parameter of `svg_to_pdf.py`'s model. The lookup of a named size and its landscape turn are not modelled; an unknown name is an attribute error raised before any layout.
- **Number format.** Coordinates are exact reals, not IEEE doubles. Rounding is not modelled.
- **Command-line parsing.** Command-line parsing, defaults and the `KEY_SIZE` environment variable are left out. This includes the two `main` functions of `svg_to_pdf.py`. The first is already called at lines 76-77, before line 80 binds the name again, so the script lays out the sheet twice: first with a default column limit of 10, then with 15. The second run overwrites the same output. A failure in the first run ends the script before the second. The model takes the parsed values as parameters.
- **Directory listing.** The listing order of `os.listdir` is left to the caller. The properties hold for every listing order.
- **Output directory.** Creating the output directory and joining paths are left out.
- **CSV parsing.** CSV quoting is not modelled. A record is its list of fields.
- **`int()` leniency.** `Strings.ParseInt` does not accept surrounding whitespace, underscores between digits, or non-ASCII digits, all of which `int()` accepts. It accepts one optional sign followed by ASCII digits.
- **Partial output.** Files written before a later row fails are not modelled. `Generate` reports the failure without the partial output.
- **Extra pieces.** Pieces after the second `$` of an action are dropped, as the code drops them.
- **Python's `str` order.** Names are compared by code point, as Python compares `str`.

## Findings

| source | as written | input that shows it | evidently intended | confidence | as-written member | corrected member |
|---|---|---|---|---|---|---|
| generate_keyset.py:20 | `create_keylegend` takes ten parameters (create_keylegend.py:21), but the loop passes it eleven positional arguments, including the icon field, which raises TypeError on the first valid data row | a header row followed by `Copy,Ctrl$C,,12,22,Helvetica,Helvetica,none,black,black` | each valid row yields one legend named `k-title-action.svg`, its fields filling the ten parameters | high; not executed | GenerateKeyset.AsWrittenWritesNoLegend | GenerateKeyset.GenerateSpec |

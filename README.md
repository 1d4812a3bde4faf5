# Word search grid, modelled in Dafny

`word_search.py` looks for words in a grid of single-character cells. The
grid is given as rows, and a word counts when it is read forwards or
backwards along a row or down a column. The file has two sets of
functions:

- `word_search(data)`. For each name in `data[0]` it
  builds a map entry listing the coordinates of the name's letters. The
  coordinates come from the first row that holds the name and from the
  column scan that follows. Its helpers are:
  - `get_name_and_coordinates`
  - `_get_coordinates`
  - `get_reverse_name`
  - `rotate_lines`, which transposes the grid.
- The presence helpers:
  - `is_present` tests one line and reverses it in place as a side effect.
  - `check_lists` runs `is_present` over lines until the first hit.
  - `handle_lists` checks the rows, then square "vertical lines".
  - `get_names` filters a list of names.
  - `get_coordinates` reports a span in row 0.

The model has three modules:

- `Strings` (`strings.dfy`) covers the sequence operations the code takes
  from Python:
  - reversal (`Reverse`, which is `get_reverse_name` and `list.reverse`);
  - the substring test `w in s` (`Contains`);
  - `s.find(w)` (`Find`).
- `WordSearch` (`word_search.dfy`) covers `word_search` and its helpers.
  Rows are immutable values there, because `word_search` never changes
  them. The result dict is a `map` value threaded through the calls.
  The loops are methods, each proved against the specification functions
  below. `ScanLines` is the inner scan loop, used both for the row scan
  and for the column scan. `Search` is the outer loop over the names, and
  `SearchName` is one pass of it.
  - `Scan` describes one scan loop's early exit.
  - `SearchWord` gives the expected entry for one name.
  - `Entries` gives the expected map.
  Lemmas about these functions state what the code promises:
  - `Spells`: every appended block of `len(name)` coordinates names the
    cells of the name's letters, in order, even when the word is written
    backwards.
  - when an entry is empty;
  - the scan order;
  - palindromes being reported twice;
  - that every entry is a whole number of blocks (`BlockCount`).
- `Presence` (`presence.dfy`) covers the presence helpers.
  - A row is an `array<char>` and the grid is a sequence of distinct
    arrays. This captures `is_present`'s in-place reversal, and its
    knock-on effect on later queries, exactly.
  - `AfterCheck`, `GridAfter` and `Kept` describe the grid each call
    leaves behind and the answers it gives.

Coordinates are `(nat, nat)` pairs in the order the code emits them:

- `word_search` emits (column, row). A row scan gives `(i, count)` and a
  column scan gives `(count, i)`.
- `get_coordinates` emits `(0, i)`: row 0, column i.

`word_search`'s pairs are (column, row); `get_coordinates`' pairs are
(row, column), the type `RowCol` in the model. `get_coordinates` returns
inside its first loop iteration, so it only ever looks at row 0, and only
after `handle_lists` has reversed that row.

## Model

| member | source | states |
|---|---|---|
| Strings.Reverse | word_search.py:70-73 | the reversed name has the name's length |
| Strings.ReverseAt | word_search.py:70-73 | character k of the reversed name is character len-1-k of the name |
| Strings.ReverseReverse | word_search.py:70-73 | reversing twice gives back the original |
| Strings.Contains | word_search.py:77 | `in` holds of the empty word in every line, and never of a word longer than the line |
| Strings.Find | word_search.py:78 | `find` answers -1 or an index within the line |
| Strings.FindSpec | word_search.py:77-78 | `find` answers -1 exactly when the word is not in the line, otherwise the leftmost index where it occurs |
| Strings.FindFromSpec | word_search.py:78 | the search from a position on, past positions known not to match, finds the leftmost occurrence or answers -1 exactly when there is none |
| Strings.ContainsReverse | word_search.py:57 | the reversed word is in the reversed line exactly when the word is in the line |
| Strings.OccursReverse | word_search.py:57 | an occurrence at i, read backwards, is an occurrence of the reversed word at len(line)-i-len(word) |
| WordSearch.RotateLines | word_search.py:63-68 | rotate_lines returns the grid's columns, column i holding cell i of every row |
| WordSearch.ColumnsSpec | word_search.py:63-68 | there are len(lines[0]) columns, each len(lines) long, with column i, cell j equal to row j, cell i |
| WordSearch.RotateTwice | word_search.py:63-68 | rotating a rectangular grid with at least one column twice gives back its rows |
| WordSearch.RunSpec | word_search.py:79-82 | the run has one coordinate per position start..start+len-1, on the fixed line, in (pos, count) or rotated (count, pos) order |
| WordSearch.LineCoords | word_search.py:75-83 | _get_coordinates yields len(name) pairs when the line holds the name, and none otherwise |
| WordSearch.LineCoordsSpec | word_search.py:75-83 | _get_coordinates is empty when the line lacks the name; otherwise it has len(name) pairs starting at the leftmost occurrence, the k-th at the cell holding name[k] |
| WordSearch.LineCoordsSpell | word_search.py:75-83 | on a row or column of the grid, the pairs name the grid cells of the word's letters in order |
| WordSearch.GetNameAndCoordinates | word_search.py:55-61 | the name's entry becomes old entry ++ forward coordinates ++ reversed coordinates of the reversed name; every other key is unchanged |
| WordSearch.Found | word_search.py:56-60 | one line adds len(name) pairs for the name and len(name) more for its reversal, each only when the line holds it |
| WordSearch.BackwardSpells | word_search.py:57-60 | the reversed name's coordinates, read back to front, name the cells of the name's letters in order |
| WordSearch.FoundSpells | word_search.py:55-61 | one line's contribution is made of whole spelled blocks, len(name) per direction in which the line holds the name |
| WordSearch.FoundEmpty | word_search.py:55-61 | one line contributes nothing exactly when the name is empty or the line holds it neither way round |
| WordSearch.PalindromeTwice | word_search.py:56-60 | a palindrome matched in a line contributes 2*len(name) coordinates |
| WordSearch.SpellsAppend | word_search.py:58-60 | extending a spelled entry with spelled blocks keeps it spelled |
| WordSearch.OneBlock | word_search.py:58 | a single spelled block is a spelled entry |
| WordSearch.PlaceInGrid | word_search.py:79-82 | a position on row or column `count` is the grid cell its pair names |
| WordSearch.BlockCount | word_search.py:40-53 | a spelled entry's length is a whole multiple of len(name), and zero blocks means an empty entry |
| WordSearch.FirstFoundSpells | word_search.py:45-52 | what a scan from a given line on yields spells the name |
| WordSearch.FirstFoundEmpty | word_search.py:45-52 | a scan from a given line on yields nothing exactly when the name is empty or no later line holds it |
| WordSearch.FirstNonEmptyIsFirst | word_search.py:45-48 | the scan yields exactly the contribution of the first line that contributes anything |
| WordSearch.AllEmpty | word_search.py:45-52 | when no line contributes, the scan yields nothing |
| WordSearch.ScanLines | word_search.py:45-52 | a scan loop adds Scan's result: on an empty entry, the first contributing line's coordinates; on a non-empty entry, column 0's only |
| WordSearch.RowScanOrder | word_search.py:45-52 | when row i is the first row that contributes, the entry is row i's contribution followed by column 0's |
| WordSearch.ColumnScanOrder | word_search.py:49-52 | when no row contributes, the entry is the contribution of the first column that contributes |
| WordSearch.SearchWordSpec | word_search.py:40-53 | an entry spells its name, and is empty exactly when the name is empty or no row and no column holds it either way round |
| WordSearch.SearchName | word_search.py:43-52 | one pass of the outer loop sets the name's entry to SearchWord and leaves every other key alone |
| WordSearch.Search | word_search.py:40-53 | word_search returns the map Entries describes |
| WordSearch.EntriesSpec | word_search.py:41-44 | the map has exactly one key per name, each mapped to SearchWord of that name |
| WordSearch.EntriesSpell | word_search.py:40-53 | every entry of the map spells its name, and is empty exactly when the name is nowhere in the grid |
| Presence.IsPresent | word_search.py:3-7 | is_present leaves the line reversed in place and answers whether the word is in the old line or in its reversal |
| Presence.PresentReverse | word_search.py:3-7 | asking again about a line is_present reversed gives the same answer |
| Presence.PresentAsHeld | word_search.py:3-7 | is_present's answer is word_search's "holds forwards or backwards" |
| Presence.AfterCheck | word_search.py:18-21 | the grid check_lists leaves has the same number of lines, each of the same length |
| Presence.AfterCheckAt | word_search.py:18-21 | reversing the lines before the stopping point gives the grid check_lists leaves |
| Presence.CheckLists | word_search.py:18-21 | check_lists reverses every line up to and including the first hit, leaves the rest, and answers whether any line held the word |
| Presence.AnyPresentAfterCheck | word_search.py:5 | rows reversed by check_lists still report exactly the same words |
| Presence.Verticals | word_search.py:11-14 | no vertical lines for at most one row; otherwise one per row index, each as long as the grid is high |
| Presence.BuildVerticals | word_search.py:12-14 | the loop builds fresh, distinct lists holding cell i of every row, for i below the row count |
| Presence.HandleLists | word_search.py:10-15 | handle_lists reverses rows as check_lists does and answers whether a row or a vertical line, built before any reversal, holds the word |
| Presence.AnyPresentHeld | word_search.py:18-21 | some line reports the word exactly when word_search's scan finds a line holding it |
| Presence.SquareAgrees | word_search.py:10-15 | on a square grid of more than one row, handle_lists asks what word_search's row and column scans ask |
| Presence.Missing | word_search.py:3-7 | a line lacking one of the word's letters does not report it |
| Presence.WideGridMisses | word_search.py:12-14 | a word down a column past the row count is found by word_search but rejected by handle_lists |
| Presence.GridAfter | word_search.py:24-29 | the grid left behind by successive queries keeps handle_lists' shape requirement |
| Presence.Kept | word_search.py:24-29 | get_names keeps at most as many names as it is given |
| Presence.GetNames | word_search.py:24-29 | get_names returns Kept, the names accepted in order, each on the grid the earlier queries left; the rows end as GridAfter says |
| Presence.KeptFromNames | word_search.py:24-29 | every kept name is one of the given names |
| Presence.AnyPresentGridAfter | word_search.py:24-29 | earlier queries never change which words the rows report |
| Presence.KeptRows | word_search.py:24-29 | a name some row reports is always kept |
| Presence.KnockOn | word_search.py:24-29 | "ac" down column 0 of rows "ab","cd" is kept when asked alone, but dropped after the query for "ab" reversed row 0 |
| Presence.FirstQueryLeaves | word_search.py:18-21 | the query for "ab" on rows "ab","cd" reverses row 0 only |
| Presence.LaterQueryFails | word_search.py:10-15 | no row and no vertical line of rows "ba","cd" reports "ac" |
| Presence.Absent | word_search.py:3-7 | a two-letter line reports a two-letter word only when the word is the line read one way or the other |
| Presence.LegacySpan | word_search.py:35-37 | the span has at most len(name) pairs, each (0, i) with i below len(name) |
| Presence.LegacySpanAtStart | word_search.py:35-37 | a name found at index 0 gets one pair per letter, each at the cell holding it |
| Presence.LegacySpanShort | word_search.py:35-37 | a name found at index s > 0 gets exactly len(name) - s pairs (none when s >= len(name)), fewer than its letters, starting at the occurrence |
| Presence.LegacySpanMissing | word_search.py:35-37 | a name the row does not hold (find -1, clamped to 0) gets the whole span (0, 0) .. (0, len(name) - 1) |
| Presence.ReversedRowSpan | word_search.py:32-37 | on the one-row grid "xab", handle_lists accepts "ab", yet the span (0, 0), (0, 1) reported over the reversed row "bax" covers neither the word as given nor as left |
| Presence.GetCoordinates | word_search.py:32-37 | get_coordinates is None unless handle_lists accepts and the grid is non-empty; otherwise it maps the name to the span in row 0 as handle_lists left it (reversed) |

## Left out

- Cells are single characters, so a line is the string its cells join to.
  `''.join` over multi-character cells is not modelled.
- Python's `in` and `str.find` are modelled by `Contains` and `Find` over
  sequences. There is no Unicode handling.
- `word_search(data)` takes `data[0]` as `names` and `data[1:]` as `rows`.
  The model takes them as two parameters.
- The IndexError raised for a grid rotate_lines cannot index (no rows,
  or a row shorter than the first) is not modelled. Neither is the one
  raised when handle_lists indexes a row shorter than the row count.
  `Rotatable` and `Fits` are preconditions instead.
- The same list object appearing twice among the rows is not modelled;
  `Distinct` is a precondition. With such aliasing, one `is_present` call
  would reverse both rows.
- The dict `get_name_and_coordinates` mutates and returns is a map value.
  Aliasing of the caller's dict is not modelled, and neither is key
  insertion order.
- The presence helpers need rows that are lists: `is_present` calls
  `data.reverse()`, which raises AttributeError on a `str` row, while
  `word_search` also accepts `str` rows. The model's `array<char>` rows
  stand for lists only; the AttributeError is not modelled.
- check_lists returns `None` when no line holds the word. It is modelled
  as `false`.
- `list.reverse` in is_present is a parallel assignment over the array. The
  swap order of CPython's implementation is not modelled.

/** The word-grid search `word_search`: for every name, the coordinates of
    its letters in the first row that holds it (forwards or backwards) and
    in the first column that holds it, every coordinate written as
    (column, row). */
module WordSearch {
  import opened Strings

  /** A grid position. Both the horizontal and the vertical scan emit
      (column, row). */
  type Coord = (nat, nat)

  /** The shape rotate_lines needs to index every row: at least one row,
      and no row shorter than the first. */
  predicate Rotatable(rows: seq<seq<char>>)
  {
    |rows| > 0 && forall j | 0 <= j < |rows| :: |rows[j]| >= |rows[0]|
  }

  /** Every row as long as the first. */
  predicate Rectangular(rows: seq<seq<char>>)
  {
    |rows| > 0 && forall j | 0 <= j < |rows| :: |rows[j]| == |rows[0]|
  }

  /** The columns of the grid: column i holds cell i of every row, top to
      bottom. */
  function Columns(rows: seq<seq<char>>): seq<seq<char>>
    requires Rotatable(rows)
  {
    seq(|rows[0]|, i requires 0 <= i < |rows[0]| =>
      seq(|rows|, j requires 0 <= j < |rows| => rows[j][i]))
  }

  /** The grid's columns: one per cell of the first row, each as long as
      the grid is high, cell j of column i being cell i of row j. */
  lemma ColumnsSpec(rows: seq<seq<char>>)
    requires Rotatable(rows)
    ensures |Columns(rows)| == |rows[0]|
    ensures forall i | 0 <= i < |rows[0]| :: |Columns(rows)[i]| == |rows|
    ensures forall i, j | 0 <= i < |rows[0]| && 0 <= j < |rows| :: Columns(rows)[i][j] == rows[j][i]
  {
  }

  /** rotate_lines: builds the columns one at a time. */
  method RotateLines(lines: seq<seq<char>>) returns (result: seq<seq<char>>)
    requires Rotatable(lines)
    ensures result == Columns(lines)
  {
    result := [];
    for i := 0 to |lines[0]|
      invariant |result| == i
      invariant forall k | 0 <= k < i :: result[k] == Columns(lines)[k]
    {
      var x := seq(|lines|, j requires 0 <= j < |lines| => lines[j][i]);
      result := result + [x];
    }
  }

  /** Rotating a rectangular grid with at least one column twice gives
      back its rows. */
  lemma RotateTwice(rows: seq<seq<char>>)
    requires Rectangular(rows) && |rows[0]| > 0
    ensures Rotatable(Columns(rows))
    ensures Columns(Columns(rows)) == rows
  {
    var cols := Columns(rows);
    assert Rotatable(cols);
    var back := Columns(cols);
    assert |back| == |rows|;
    forall j | 0 <= j < |rows|
      ensures back[j] == rows[j]
    {
      assert |back[j]| == |rows[j]|;
      forall i | 0 <= i < |rows[j]|
        ensures back[j][i] == rows[j][i]
      {
        assert back[j][i] == cols[i][j];
      }
    }
  }

  /** The coordinate of position `pos` along line number `count`. */
  function Place(pos: nat, count: nat, rotate: bool): Coord
  {
    if rotate then (count, pos) else (pos, count)
  }

  /** The position along its line that a coordinate names. */
  function Along(c: Coord, rotate: bool): nat
  {
    if rotate then c.1 else c.0
  }

  /** The coordinates of positions start..start+len-1 along line `count`. */
  function Run(start: nat, len: nat, count: nat, rotate: bool): seq<Coord>
    decreases len
  {
    if len == 0 then [] else Run(start, len - 1, count, rotate) + [Place(start + len - 1, count, rotate)]
  }

  lemma {:induction false} RunSpec(start: nat, len: nat, count: nat, rotate: bool)
    ensures |Run(start, len, count, rotate)| == len
    ensures forall k | 0 <= k < len :: Run(start, len, count, rotate)[k] == Place(start + k, count, rotate)
    decreases len
  {
    if len > 0 {
      RunSpec(start, len - 1, count, rotate);
    }
  }

  /** _get_coordinates: the coordinates of the leftmost occurrence of `name`
      in `line`, which is row (or, rotated, column) number `count`. The test
      `name in line` is `Find(line, name) != -1` (see Strings.FindSpec). */
  function LineCoords(name: seq<char>, line: seq<char>, count: nat, rotate: bool): (r: seq<Coord>)
    ensures |r| == if Contains(line, name) then |name| else 0
  {
    FindSpec(line, name);
    RunSpec(if Find(line, name) == -1 then 0 else Find(line, name), |name|, count, rotate);
    var start := Find(line, name);
    if start != -1 then Run(start, |name|, count, rotate) else []
  }

  /** _get_coordinates yields nothing when the line does not hold the name;
      otherwise one coordinate per letter, all on line `count`, running along
      the line from the leftmost occurrence, each at the cell holding that
      letter. */
  lemma LineCoordsSpec(name: seq<char>, line: seq<char>, count: nat, rotate: bool)
    ensures var r := LineCoords(name, line, count, rotate);
      && (!Contains(line, name) ==> r == [])
      && (Contains(line, name) ==> |r| == |name| && IsLeftmost(name, line, Find(line, name)))
      && forall k | 0 <= k < |r| ::
           && r[k] == Place(Find(line, name) + k, count, rotate)
           && Along(r[k], rotate) < |line|
           && line[Along(r[k], rotate)] == name[k]
  {
    FindSpec(line, name);
    if Contains(line, name) {
      RunSpec(Find(line, name), |name|, count, rotate);
      var start := Find(line, name);
      assert line[start..start + |name|] == name;
    }
  }

  /** What get_name_and_coordinates appends for one line: the coordinates
      of the name, then those of the reversed name read back to front. */
  function Found(name: seq<char>, line: seq<char>, count: nat, rotate: bool): (r: seq<Coord>)
    ensures |r| == (if Contains(line, name) then |name| else 0)
                 + (if Contains(line, Reverse(name)) then |name| else 0)
  {
    LineCoords(name, line, count, rotate) + Reverse(LineCoords(Reverse(name), line, count, rotate))
  }

  /** get_name_and_coordinates: extends the entry of `name` with what
      `line` holds of it and leaves every other entry alone. */
  method GetNameAndCoordinates(result: map<seq<char>, seq<Coord>>, name: seq<char>,
                               line: seq<char>, count: nat, rotate: bool)
    returns (r: map<seq<char>, seq<Coord>>)
    requires name in result
    ensures r == result[name := result[name] + Found(name, line, count, rotate)]
  {
    var coordinates := LineCoords(name, line, count, rotate);
    var reverseCoordinates := LineCoords(Reverse(name), line, count, rotate);
    r := result[name := result[name] + coordinates];
    reverseCoordinates := Reverse(reverseCoordinates);
    r := r[name := r[name] + reverseCoordinates];
    assert r[name] == result[name] + (coordinates + reverseCoordinates);
  }

  /** The cell a (column, row) coordinate names exists. */
  predicate InGrid(rows: seq<seq<char>>, c: Coord)
  {
    c.1 < |rows| && c.0 < |rows[c.1]|
  }

  /** `block` names, in order, cells holding the letters of `name`. */
  predicate SpellsAt(rows: seq<seq<char>>, name: seq<char>, block: seq<Coord>)
  {
    |block| == |name| &&
    forall k | 0 <= k < |block| :: InGrid(rows, block[k]) && rows[block[k].1][block[k].0] == name[k]
  }

  /** `coords` is made of whole blocks, one per found occurrence, each
      naming the cells of the name's letters from its first to its last. */
  predicate Spells(rows: seq<seq<char>>, name: seq<char>, coords: seq<Coord>)
    decreases |coords|
  {
    coords == [] ||
    (|name| > 0 && |name| <= |coords| && SpellsAt(rows, name, coords[..|name|])
     && Spells(rows, name, coords[|name|..]))
  }

  /** The line a scan reads: row `count`, or column `count` when rotated. */
  predicate IsLine(rows: seq<seq<char>>, line: seq<char>, count: nat, rotate: bool)
  {
    if rotate then Rotatable(rows) && count < |rows[0]| && line == Columns(rows)[count]
    else count < |rows| && line == rows[count]
  }

  /** Concatenating spelled blocks keeps them spelled. */
  lemma {:induction false} SpellsAppend(rows: seq<seq<char>>, name: seq<char>, a: seq<Coord>, b: seq<Coord>)
    requires Spells(rows, name, a) && Spells(rows, name, b)
    ensures Spells(rows, name, a + b)
    decreases |a|
  {
    if a != [] {
      var n := |name|;
      assert 0 < n <= |a| && SpellsAt(rows, name, a[..n]) && Spells(rows, name, a[n..]);
      SpellsAppend(rows, name, a[n..], b);
      assert (a + b)[..n] == a[..n];
      assert (a + b)[n..] == a[n..] + b;
    } else {
      assert a + b == b;
    }
  }

  /** The number of blocks in a spelled coordinate list: its length is
      that many times the name's length, so an empty name spells nothing
      but the empty list. */
  function BlockCount(rows: seq<seq<char>>, name: seq<char>, coords: seq<Coord>): (b: nat)
    requires Spells(rows, name, coords)
    ensures |coords| == b * |name|
    ensures b == 0 <==> coords == []
    decreases |coords|
  {
    if coords == [] then 0 else 1 + BlockCount(rows, name, coords[|name|..])
  }

  /** A position along row (or column) `count` is the grid cell that
      Place names. */
  lemma PlaceInGrid(rows: seq<seq<char>>, line: seq<char>, count: nat, rotate: bool, pos: nat)
    requires IsLine(rows, line, count, rotate) && pos < |line|
    ensures InGrid(rows, Place(pos, count, rotate))
    ensures rows[Place(pos, count, rotate).1][Place(pos, count, rotate).0] == line[pos]
  {
  }

  /** _get_coordinates on a line of the grid names the cells of the word's
      letters, in order. */
  lemma LineCoordsSpell(rows: seq<seq<char>>, w: seq<char>, line: seq<char>, count: nat, rotate: bool)
    requires IsLine(rows, line, count, rotate) && Contains(line, w)
    ensures SpellsAt(rows, w, LineCoords(w, line, count, rotate))
  {
    var r := LineCoords(w, line, count, rotate);
    LineCoordsSpec(w, line, count, rotate);
    forall k | 0 <= k < |r|
      ensures InGrid(rows, r[k]) && rows[r[k].1][r[k].0] == w[k]
    {
      PlaceInGrid(rows, line, count, rotate, Find(line, w) + k);
    }
  }

  /** A single spelled block is a spelled coordinate list. */
  lemma OneBlock(rows: seq<seq<char>>, name: seq<char>, block: seq<Coord>)
    requires |name| > 0 && SpellsAt(rows, name, block)
    ensures Spells(rows, name, block)
  {
    assert block[..|name|] == block;
    assert block[|name|..] == [];
  }

  /** The coordinates of the reversed name, read back to front, name the
      cells of the name's letters in order. */
  lemma BackwardSpells(rows: seq<seq<char>>, name: seq<char>, line: seq<char>, count: nat, rotate: bool)
    requires IsLine(rows, line, count, rotate) && Contains(line, Reverse(name))
    ensures SpellsAt(rows, name, Reverse(LineCoords(Reverse(name), line, count, rotate)))
  {
    var n := |name|;
    var rname := Reverse(name);
    var raw := LineCoords(rname, line, count, rotate);
    var bwd := Reverse(raw);
    LineCoordsSpell(rows, rname, line, count, rotate);
    ReverseAt(raw);
    ReverseAt(name);
    forall k | 0 <= k < n
      ensures InGrid(rows, bwd[k]) && rows[bwd[k].1][bwd[k].0] == name[k]
    {
      assert bwd[k] == raw[n - 1 - k];
      assert rname[n - 1 - k] == name[k];
    }
  }

  /** One line's contribution: a block per direction in which the line
      holds the name, each naming the cells of the name's letters from its
      first letter to its last, however the word is written in the grid. */
  lemma FoundSpells(rows: seq<seq<char>>, name: seq<char>, line: seq<char>, count: nat, rotate: bool)
    requires IsLine(rows, line, count, rotate)
    ensures Spells(rows, name, Found(name, line, count, rotate))
    ensures |Found(name, line, count, rotate)|
      == (if Contains(line, name) then |name| else 0)
       + (if Contains(line, Reverse(name)) then |name| else 0)
  {
    var fwd := LineCoords(name, line, count, rotate);
    var bwd := Reverse(LineCoords(Reverse(name), line, count, rotate));
    LineCoordsSpec(name, line, count, rotate);
    LineCoordsSpec(Reverse(name), line, count, rotate);
    assert Spells(rows, name, fwd) by {
      if fwd != [] {
        LineCoordsSpell(rows, name, line, count, rotate);
        OneBlock(rows, name, fwd);
      }
    }
    assert Spells(rows, name, bwd) by {
      if bwd != [] {
        BackwardSpells(rows, name, line, count, rotate);
        OneBlock(rows, name, bwd);
      }
    }
    SpellsAppend(rows, name, fwd, bwd);
  }

  /** What each line contributes, line by line. */
  function Contributions(name: seq<char>, lines: seq<seq<char>>, rotate: bool): (b: seq<seq<Coord>>)
    ensures |b| == |lines|
  {
    seq(|lines|, c requires 0 <= c < |lines| => Found(name, lines[c], c, rotate))
  }

  /** The first non-empty block from `from` on; nothing when there is none. */
  function FirstNonEmpty(blocks: seq<seq<Coord>>, from: nat): seq<Coord>
    requires from <= |blocks|
    decreases |blocks| - from
  {
    if from == |blocks| then []
    else if blocks[from] != [] then blocks[from]
    else FirstNonEmpty(blocks, from + 1)
  }

  /** The contribution of the first line, from `from` on, that holds the
      name either way round; nothing when no line does. */
  function FirstFound(name: seq<char>, lines: seq<seq<char>>, from: nat, rotate: bool): seq<Coord>
    requires from <= |lines|
  {
    FirstNonEmpty(Contributions(name, lines, rotate), from)
  }

  /** The line `line` holds the name forwards or backwards. */
  predicate HoldsEitherWay(line: seq<char>, name: seq<char>)
  {
    Contains(line, name) || Contains(line, Reverse(name))
  }

  /** Some line from `from` on holds the name either way round. */
  predicate HeldFrom(name: seq<char>, lines: seq<seq<char>>, from: nat)
  {
    exists i | from <= i < |lines| :: HoldsEitherWay(lines[i], name)
  }

  /** What one scan loop of word_search appends to an entry that holds
      `entry` when the loop starts: the loop stops after the first line
      once the entry is non-empty, so a non-empty entry gets line 0's
      contribution only, and an empty one gets the first line's that
      yields any. */
  function Scan(name: seq<char>, entry: seq<Coord>, lines: seq<seq<char>>, rotate: bool): seq<Coord>
  {
    if entry == [] then FirstFound(name, lines, 0, rotate)
    else if lines == [] then []
    else Found(name, lines[0], 0, rotate)
  }

  /** The entry word_search computes for one name: the row scan on an empty
      entry, then the column scan on what the row scan left. */
  function SearchWord(name: seq<char>, rows: seq<seq<char>>, cols: seq<seq<char>>): seq<Coord>
  {
    var across := Scan(name, [], rows, false);
    across + Scan(name, across, cols, true)
  }

  /** Found is empty exactly when the name is empty or the line holds it
      neither way round. */
  lemma FoundEmpty(rows: seq<seq<char>>, name: seq<char>, line: seq<char>, count: nat, rotate: bool)
    requires IsLine(rows, line, count, rotate)
    ensures Found(name, line, count, rotate) == [] <==> |name| == 0 || !HoldsEitherWay(line, name)
  {
    FoundSpells(rows, name, line, count, rotate);
  }

  /** The scan over lines `from..` spells the name block by block. */
  lemma {:induction false} FirstFoundSpells(rows: seq<seq<char>>, name: seq<char>, lines: seq<seq<char>>,
                                            from: nat, rotate: bool)
    requires from <= |lines|
    requires forall c | from <= c < |lines| :: IsLine(rows, lines[c], c, rotate)
    ensures Spells(rows, name, FirstFound(name, lines, from, rotate))
    decreases |lines| - from
  {
    if from < |lines| {
      FoundSpells(rows, name, lines[from], from, rotate);
      FirstFoundSpells(rows, name, lines, from + 1, rotate);
    }
  }

  /** The scan over lines `from..` is empty exactly when the name is empty
      or no line from `from` on holds it either way round. */
  lemma {:induction false} FirstFoundEmpty(rows: seq<seq<char>>, name: seq<char>, lines: seq<seq<char>>,
                                           from: nat, rotate: bool)
    requires from <= |lines|
    requires forall c | from <= c < |lines| :: IsLine(rows, lines[c], c, rotate)
    ensures FirstFound(name, lines, from, rotate) == [] <==> |name| == 0 || !HeldFrom(name, lines, from)
    decreases |lines| - from
  {
    if from < |lines| {
      FoundEmpty(rows, name, lines[from], from, rotate);
      FirstFoundEmpty(rows, name, lines, from + 1, rotate);
      if HeldFrom(name, lines, from) && !HoldsEitherWay(lines[from], name) {
        var i :| from <= i < |lines| && HoldsEitherWay(lines[i], name);
        assert HeldFrom(name, lines, from + 1);
      }
    }
  }

  /** Scan order: the scan stops at the first block, from `from` on, that
      is non-empty. */
  lemma {:induction false} FirstNonEmptyIsFirst(blocks: seq<seq<Coord>>, from: nat, i: nat)
    requires from <= i < |blocks| && blocks[i] != []
    requires forall j | from <= j < i :: blocks[j] == []
    ensures FirstNonEmpty(blocks, from) == blocks[i]
    decreases i - from
  {
    if from < i {
      FirstNonEmptyIsFirst(blocks, from + 1, i);
    }
  }

  /** Every entry of word_search spells its name block by block, and is
      empty exactly when the name is empty or no row and no column holds
      it forwards or backwards. */
  lemma SearchWordSpec(name: seq<char>, rows: seq<seq<char>>)
    requires Rotatable(rows)
    ensures Spells(rows, name, SearchWord(name, rows, Columns(rows)))
    ensures SearchWord(name, rows, Columns(rows)) == [] <==>
      |name| == 0 || (!HeldFrom(name, rows, 0) && !HeldFrom(name, Columns(rows), 0))
  {
    var cols := Columns(rows);
    FirstFoundSpells(rows, name, rows, 0, false);
    FirstFoundSpells(rows, name, cols, 0, true);
    FirstFoundEmpty(rows, name, rows, 0, false);
    FirstFoundEmpty(rows, name, cols, 0, true);
    var across := FirstFound(name, rows, 0, false);
    if across != [] && |cols| > 0 {
      FoundSpells(rows, name, cols[0], 0, true);
      SpellsAppend(rows, name, across, Found(name, cols[0], 0, true));
    } else {
      SpellsAppend(rows, name, across, FirstFound(name, cols, 0, true));
    }
  }

  /** Scan order, a row matches: the horizontal coordinates come from the
      first row that yields any, and the vertical scan stops after
      column 0. */
  lemma RowScanOrder(name: seq<char>, rows: seq<seq<char>>, i: nat)
    requires Rotatable(rows) && i < |rows|
    requires Found(name, rows[i], i, false) != []
    requires forall j | 0 <= j < i :: Found(name, rows[j], j, false) == []
    ensures SearchWord(name, rows, Columns(rows)) ==
      Found(name, rows[i], i, false) + (if |rows[0]| > 0 then Found(name, Columns(rows)[0], 0, true) else [])
  {
    FirstNonEmptyIsFirst(Contributions(name, rows, false), 0, i);
  }

  /** Scan order, no row matches: the coordinates are those of the first
      column that yields any. */
  lemma ColumnScanOrder(name: seq<char>, rows: seq<seq<char>>, i: nat)
    requires Rotatable(rows) && i < |rows[0]|
    requires forall j | 0 <= j < |rows| :: Found(name, rows[j], j, false) == []
    requires Found(name, Columns(rows)[i], i, true) != []
    requires forall j | 0 <= j < i :: Found(name, Columns(rows)[j], j, true) == []
    ensures SearchWord(name, rows, Columns(rows)) == Found(name, Columns(rows)[i], i, true)
  {
    AllEmpty(Contributions(name, rows, false), 0);
    FirstNonEmptyIsFirst(Contributions(name, Columns(rows), true), 0, i);
  }

  /** When no block from `from` on is non-empty, the scan yields
      nothing. */
  lemma {:induction false} AllEmpty(blocks: seq<seq<Coord>>, from: nat)
    requires from <= |blocks|
    requires forall j | from <= j < |blocks| :: blocks[j] == []
    ensures FirstNonEmpty(blocks, from) == []
    decreases |blocks| - from
  {
    if from < |blocks| {
      AllEmpty(blocks, from + 1);
    }
  }

  /** A palindrome matched in a line is reported twice over: once
      forwards and once as its own reversal. */
  lemma PalindromeTwice(rows: seq<seq<char>>, name: seq<char>, line: seq<char>, count: nat, rotate: bool)
    requires IsLine(rows, line, count, rotate)
    requires Reverse(name) == name && Contains(line, name)
    ensures |Found(name, line, count, rotate)| == 2 * |name|
  {
    FoundSpells(rows, name, line, count, rotate);
  }

  /** One scan loop of word_search (rows, or with `rotate` the columns):
      extends the entry of `name` line by line and stops after the first
      line that leaves the entry non-empty. */
  method ScanLines(result: map<seq<char>, seq<Coord>>, name: seq<char>, lines: seq<seq<char>>, rotate: bool)
    returns (r: map<seq<char>, seq<Coord>>)
    requires name in result
    ensures r == result[name := result[name] + Scan(name, result[name], lines, rotate)]
  {
    r := result;
    ghost var entry := result[name];
    var count := 0;
    while count < |lines|
      invariant count <= |lines|
      invariant r == result
      invariant entry != [] ==> count == 0
      invariant entry == [] ==> FirstFound(name, lines, count, rotate) == FirstFound(name, lines, 0, rotate)
    {
      r := GetNameAndCoordinates(r, name, lines[count], count, rotate);
      if r[name] != [] {
        return;
      }
      count := count + 1;
    }
    assert entry + Scan(name, entry, lines, rotate) == entry;
  }

  /** The map word_search builds from `names`: each name, in order, gets
      the entry SearchWord describes (a later duplicate overwrites an
      earlier one with the same value). */
  function Entries(names: seq<seq<char>>, rows: seq<seq<char>>, cols: seq<seq<char>>): map<seq<char>, seq<Coord>>
    decreases |names|
  {
    if names == [] then map[]
    else
      var last := names[|names| - 1];
      Entries(names[..|names| - 1], rows, cols)[last := SearchWord(last, rows, cols)]
  }

  /** The map has one key per name, and each entry is what SearchWord
      describes for its name. */
  lemma {:induction false} EntriesSpec(names: seq<seq<char>>, rows: seq<seq<char>>, cols: seq<seq<char>>)
    ensures forall n :: n in Entries(names, rows, cols) <==> n in names
    ensures forall n | n in Entries(names, rows, cols) :: Entries(names, rows, cols)[n] == SearchWord(n, rows, cols)
    decreases |names|
  {
    if names != [] {
      var init := names[..|names| - 1];
      EntriesSpec(init, rows, cols);
      assert names == init + [names[|names| - 1]];
    }
  }

  /** Every entry of word_search's map spells its name and is empty exactly
      when the name is nowhere in the grid. */
  lemma EntriesSpell(names: seq<seq<char>>, rows: seq<seq<char>>)
    requires Rotatable(rows)
    ensures forall n | n in Entries(names, rows, Columns(rows)) :: Spells(rows, n, Entries(names, rows, Columns(rows))[n])
    ensures forall n | n in Entries(names, rows, Columns(rows)) ::
      Entries(names, rows, Columns(rows))[n] == [] <==> |n| == 0 || (!HeldFrom(n, rows, 0) && !HeldFrom(n, Columns(rows), 0))
  {
    var m := Entries(names, rows, Columns(rows));
    EntriesSpec(names, rows, Columns(rows));
    forall n | n in m
      ensures Spells(rows, n, m[n])
      ensures m[n] == [] <==> |n| == 0 || (!HeldFrom(n, rows, 0) && !HeldFrom(n, Columns(rows), 0))
    {
      SearchWordSpec(n, rows);
    }
  }

  /** One pass of word_search's outer loop: a fresh entry for `name`,
      the row scan, then the column scan. */
  method SearchName(result: map<seq<char>, seq<Coord>>, name: seq<char>,
                    rows: seq<seq<char>>, cols: seq<seq<char>>)
    returns (r: map<seq<char>, seq<Coord>>)
    ensures r == result[name := SearchWord(name, rows, cols)]
  {
    r := result[name := []];
    r := ScanLines(r, name, rows, false);
    assert r[name] == Scan(name, [], rows, false);
    r := ScanLines(r, name, cols, true);
  }

  /** word_search: `names` is the first element of the input, `rows` the
      rest. Every name gets an entry; the entry is the one SearchWord
      describes, spells the name block by block, and is empty exactly when
      the name is empty or occurs in no row and no column either way round. */
  method Search(names: seq<seq<char>>, rows: seq<seq<char>>) returns (result: map<seq<char>, seq<Coord>>)
    requires Rotatable(rows)
    ensures result == Entries(names, rows, Columns(rows))
  {
    result := map[];
    var rotatedLines := RotateLines(rows);
    for t := 0 to |names|
      invariant result == Entries(names[..t], rows, rotatedLines)
    {
      assert names[..t + 1][..t] == names[..t];
      result := SearchName(result, names[t], rows, rotatedLines);
    }
    assert names[..|names|] == names;
  }
}

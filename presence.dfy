/** The presence helpers of word_search.py: is_present, check_lists,
    handle_lists, get_names and get_coordinates. A row is a mutable list of
    cells, and is_present reverses the row it is handed, so rows are arrays
    here and the grid is a sequence of distinct arrays; every query leaves
    some rows reversed for the next one. */
module Presence {
  import opened Strings
  import WordSearch

  datatype Option<T> = None | Some(value: T)

  /** A position as get_coordinates writes it: (row, column), the row being
      the index enumerate gives. */
  type RowCol = (nat, nat)

  /** The contents of a grid, row by row. */
  type Grid = seq<seq<char>>

  /** No row appears twice in the grid. */
  predicate Distinct(lines: seq<array<char>>)
  {
    forall i, j | 0 <= i < j < |lines| :: lines[i] != lines[j]
  }

  /** The arrays of the grid, as a set. */
  function Rows(lines: seq<array<char>>): set<array<char>>
  {
    set a | a in lines
  }

  /** The current contents of the grid, row by row. */
  function Contents(lines: seq<array<char>>): (g: Grid)
    reads Rows(lines)
    ensures |g| == |lines|
    ensures forall j | 0 <= j < |lines| :: g[j] == lines[j][..]
  {
    seq(|lines|, j requires 0 <= j < |lines| reads lines => lines[j][..])
  }

  /** is_present's answer for a line holding `l`: the word occurs in it as
      written or as reversed. */
  predicate PresentIn(word: seq<char>, l: seq<char>)
  {
    Contains(l, word) || Contains(Reverse(l), word)
  }

  /** is_present: tests the line, reverses it in place, tests it again. */
  method IsPresent(word: seq<char>, data: array<char>) returns (present: bool)
    modifies data
    ensures data[..] == Reverse(old(data[..]))
    ensures present == PresentIn(word, old(data[..]))
  {
    var forward := Contains(data[..], word);
    var before := data[..];
    forall k | 0 <= k < data.Length {
      data[k] := before[data.Length - 1 - k];
    }
    assert data[..] == Reverse(before);
    var backward := Contains(data[..], word);
    present := forward || backward;
  }

  /** A line reports the word exactly when, as a line of word_search, it
      holds the word forwards or backwards. */
  lemma PresentAsHeld(word: seq<char>, l: seq<char>)
    ensures PresentIn(word, l) <==> WordSearch.HoldsEitherWay(l, word)
  {
    ContainsReverse(Reverse(l), word);
    ReverseReverse(l);
  }

  /** Asking again about a line that is_present has reversed gives the
      same answer. */
  lemma PresentReverse(word: seq<char>, l: seq<char>)
    ensures PresentIn(word, Reverse(l)) == PresentIn(word, l)
  {
    ReverseReverse(l);
  }

  /** Some line of `g` reports the word. */
  predicate AnyPresent(word: seq<char>, g: Grid)
  {
    exists i | 0 <= i < |g| :: PresentIn(word, g[i])
  }

  /** No line before line `i` reports the word. */
  predicate NoneBefore(word: seq<char>, g: Grid, i: nat)
  {
    forall j | 0 <= j < i && j < |g| :: !PresentIn(word, g[j])
  }

  /** The grid check_lists leaves behind: every line up to and including
      the first one that reports the word is reversed. */
  function AfterCheck(word: seq<char>, g: Grid): (r: Grid)
    ensures |r| == |g|
    ensures forall j | 0 <= j < |g| :: |r[j]| == |g[j]|
  {
    seq(|g|, j requires 0 <= j < |g| => if NoneBefore(word, g, j) then Reverse(g[j]) else g[j])
  }

  /** A grid whose lines before `stop` are reversed and the rest kept is
      the one check_lists leaves, when `stop` is where its scan ended. */
  lemma AfterCheckAt(word: seq<char>, g: Grid, r: Grid, stop: nat)
    requires |r| == |g| && stop <= |g|
    requires forall j | 0 <= j < |g| :: r[j] == if j < stop then Reverse(g[j]) else g[j]
    requires forall j | 0 <= j < |g| :: j < stop <==> NoneBefore(word, g, j)
    ensures r == AfterCheck(word, g)
  {
  }

  /** check_lists: asks is_present about each line in turn and stops at the
      first that reports the word. */
  method CheckLists(word: seq<char>, lines: seq<array<char>>) returns (found: bool)
    requires Distinct(lines)
    modifies Rows(lines)
    ensures Contents(lines) == AfterCheck(word, old(Contents(lines)))
    ensures found == AnyPresent(word, old(Contents(lines)))
  {
    ghost var g := Contents(lines);
    var i := 0;
    while i < |lines|
      invariant i <= |lines|
      invariant NoneBefore(word, g, i)
      invariant forall j | 0 <= j < |lines| :: lines[j][..] == if j < i then Reverse(g[j]) else g[j]
    {
      var p := IsPresent(word, lines[i]);
      if p {
        assert forall j | 0 <= j < |g| :: j < i + 1 <==> NoneBefore(word, g, j);
        AfterCheckAt(word, g, Contents(lines), i + 1);
        return true;
      }
      i := i + 1;
    }
    AfterCheckAt(word, g, Contents(lines), i);
    return false;
  }

  /** handle_lists indexes cell i of every row for every i below the row
      count, once there is more than one row. */
  predicate Fits(g: Grid)
  {
    |g| > 1 ==> forall j | 0 <= j < |g| :: |g[j]| >= |g|
  }

  /** The vertical lines handle_lists builds: none for a grid of at most one
      row; otherwise one per row index i, holding cell i of every row. */
  function Verticals(g: Grid): (v: Grid)
    requires Fits(g)
    ensures |v| == if |g| > 1 then |g| else 0
    ensures forall i | 0 <= i < |v| :: |v[i]| == |g|
  {
    if |g| > 1 then seq(|g|, i requires 0 <= i < |g| => seq(|g|, j requires 0 <= j < |g| => g[j][i]))
    else []
  }

  /** handle_lists' answer: some row or some vertical line reports the word. */
  predicate HandlePresent(word: seq<char>, g: Grid)
    requires Fits(g)
  {
    AnyPresent(word, g) || AnyPresent(word, Verticals(g))
  }

  /** The loop of handle_lists that builds the vertical lines, one fresh
      list per row index. */
  method BuildVerticals(lines: seq<array<char>>) returns (vertical: seq<array<char>>)
    requires |lines| > 1 && Fits(Contents(lines))
    ensures Distinct(vertical) && Contents(vertical) == Verticals(Contents(lines))
    ensures forall k | 0 <= k < |vertical| :: fresh(vertical[k])
  {
    ghost var g := Contents(lines);
    vertical := [];
    for i := 0 to |lines|
      invariant |vertical| == i
      invariant Contents(lines) == g
      invariant forall k | 0 <= k < i :: fresh(vertical[k]) && vertical[k][..] == Verticals(g)[k]
      invariant Distinct(vertical)
    {
      var column := new char[|lines|];
      for j := 0 to |lines|
        invariant forall m | 0 <= m < j :: column[m] == g[m][i]
        modifies column
      {
        column[j] := lines[j][i];
      }
      assert column[..] == Verticals(g)[i];
      vertical := vertical + [column];
    }
    assert Contents(lines) == g;
    assert Contents(vertical) == Verticals(g);
  }

  /** handle_lists: builds the vertical lines from the rows as they are,
      then runs check_lists over the rows and over the vertical lines (both,
      the second on fresh lists that nobody else sees). */
  method HandleLists(word: seq<char>, lines: seq<array<char>>) returns (present: bool)
    requires Distinct(lines) && Fits(Contents(lines))
    modifies Rows(lines)
    ensures Contents(lines) == AfterCheck(word, old(Contents(lines)))
    ensures present == HandlePresent(word, old(Contents(lines)))
  {
    ghost var g := Contents(lines);
    var vertical: seq<array<char>> := [];
    if |lines| > 1 {
      vertical := BuildVerticals(lines);
    }
    var inRows := CheckLists(word, lines);
    var inColumns := CheckLists(word, vertical);
    present := inRows || inColumns;
  }

  /** Rows that check_lists reverses still report the same words. */
  lemma {:induction false} AnyPresentAfterCheck(word: seq<char>, v: seq<char>, g: Grid)
    ensures AnyPresent(word, AfterCheck(v, g)) == AnyPresent(word, g)
  {
    var r := AfterCheck(v, g);
    forall j | 0 <= j < |g|
      ensures PresentIn(word, r[j]) == PresentIn(word, g[j])
    {
      PresentReverse(word, g[j]);
    }
    if AnyPresent(word, g) {
      var i :| 0 <= i < |g| && PresentIn(word, g[i]);
      assert PresentIn(word, r[i]);
    }
    if AnyPresent(word, r) {
      var i :| 0 <= i < |r| && PresentIn(word, r[i]);
      assert PresentIn(word, g[i]);
    }
  }

  /** The grid get_names leaves after querying `names` in order, each
      query running on the grid the previous ones left. */
  function GridAfter(names: seq<seq<char>>, g: Grid): (r: Grid)
    requires Fits(g)
    ensures Fits(r)
    decreases |names|
  {
    if names == [] then g
    else AfterCheck(names[|names| - 1], GridAfter(names[..|names| - 1], g))
  }

  /** The names get_names keeps, in order: each one that handle_lists
      accepts on the grid the earlier queries left. */
  function Kept(names: seq<seq<char>>, g: Grid): (r: seq<seq<char>>)
    requires Fits(g)
    ensures |r| <= |names|
    decreases |names|
  {
    if names == [] then []
    else
      var init, last := names[..|names| - 1], names[|names| - 1];
      Kept(init, g) + (if HandlePresent(last, GridAfter(init, g)) then [last] else [])
  }

  /** get_names: keeps, in order, the names handle_lists accepts. */
  method GetNames(names: seq<seq<char>>, lines: seq<array<char>>) returns (result: seq<seq<char>>)
    requires Distinct(lines) && Fits(Contents(lines))
    modifies Rows(lines)
    ensures result == Kept(names, old(Contents(lines)))
    ensures Contents(lines) == GridAfter(names, old(Contents(lines)))
  {
    ghost var g := Contents(lines);
    result := [];
    for i := 0 to |names|
      invariant result == Kept(names[..i], g)
      invariant Contents(lines) == GridAfter(names[..i], g)
    {
      assert names[..i + 1][..i] == names[..i];
      var keep := HandleLists(names[i], lines);
      if keep {
        result := result + [names[i]];
      }
    }
    assert names[..|names|] == names;
  }

  /** Every name get_names keeps is one of the given names. */
  lemma {:induction false} KeptFromNames(names: seq<seq<char>>, g: Grid)
    requires Fits(g)
    ensures forall n | n in Kept(names, g) :: n in names
    decreases |names|
  {
    if names != [] {
      var init := names[..|names| - 1];
      KeptFromNames(init, g);
      assert forall n | n in init :: n in names;
    }
  }

  /** Rows reversed by earlier queries still report the same words. */
  lemma {:induction false} AnyPresentGridAfter(n: seq<char>, names: seq<seq<char>>, g: Grid)
    requires Fits(g)
    ensures AnyPresent(n, GridAfter(names, g)) == AnyPresent(n, g)
    decreases |names|
  {
    if names != [] {
      var init := names[..|names| - 1];
      AnyPresentGridAfter(n, init, g);
      AnyPresentAfterCheck(n, names[|names| - 1], GridAfter(init, g));
    }
  }

  /** A name that some row of the original grid reports is never dropped,
      however the earlier queries reversed the rows. */
  lemma {:induction false} KeptRows(names: seq<seq<char>>, g: Grid)
    requires Fits(g)
    ensures forall n | n in names && AnyPresent(n, g) :: n in Kept(names, g)
    decreases |names|
  {
    if names != [] {
      var init, last := names[..|names| - 1], names[|names| - 1];
      KeptRows(init, g);
      AnyPresentGridAfter(last, init, g);
      assert names == init + [last];
    }
  }

  /** The knock-on effect of the in-place reversal: on rows "ab" and "cd",
      "ac" runs down the first column, yet once the query for "ab" has
      reversed the first row no line reports it. */
  lemma KnockOn()
    ensures Kept([['a', 'c']], [['a', 'b'], ['c', 'd']]) == [['a', 'c']]
    ensures Kept([['a', 'b'], ['a', 'c']], [['a', 'b'], ['c', 'd']]) == [['a', 'b']]
  {
    var g: Grid := [['a', 'b'], ['c', 'd']];
    var ab, ac := ['a', 'b'], ['a', 'c'];
    assert HandlePresent(ac, g) by {
      assert Verticals(g)[0] == ac;
      assert OccursAt(ac, Verticals(g)[0], 0);
      assert PresentIn(ac, Verticals(g)[0]);
    }
    assert [ac][..0] == [];
    assert HandlePresent(ab, g) by {
      assert OccursAt(ab, g[0], 0);
      assert PresentIn(ab, g[0]);
    }
    assert [ab, ac][..1] == [ab];
    assert [ab][..0] == [];
    FirstQueryLeaves();
    LaterQueryFails();
  }

  /** The query for "ab" on rows "ab" and "cd" reverses the first row only. */
  lemma FirstQueryLeaves()
    ensures AfterCheck(['a', 'b'], [['a', 'b'], ['c', 'd']]) == [['b', 'a'], ['c', 'd']]
  {
    var g: Grid := [['a', 'b'], ['c', 'd']];
    var ab := ['a', 'b'];
    assert NoneBefore(ab, g, 0);
    assert OccursAt(ab, g[0], 0);
    assert !NoneBefore(ab, g, 1);
    ReverseAt(g[0]);
    var r := AfterCheck(ab, g);
    assert r[0] == Reverse(g[0]) == ['b', 'a'];
    assert r[1] == g[1];
  }

  /** No row and no vertical line of rows "ba" and "cd" reports "ac". */
  lemma LaterQueryFails()
    ensures !HandlePresent(['a', 'c'], [['b', 'a'], ['c', 'd']])
  {
    var g: Grid := [['b', 'a'], ['c', 'd']];
    var ac := ['a', 'c'];
    Absent(ac, g[0]);
    Absent(ac, g[1]);
    var v := Verticals(g);
    assert v[0] == ['b', 'c'] && v[1] == ['a', 'd'];
    Absent(ac, v[0]);
    Absent(ac, v[1]);
  }

  /** A two-letter line reports a two-letter word only when the word is the
      line read one way or the other. */
  lemma Absent(w: seq<char>, l: seq<char>)
    requires |w| == 2 && |l| == 2 && w != l && w != [l[1], l[0]]
    ensures !PresentIn(w, l)
  {
    ReverseAt(l);
    assert Reverse(l) == [l[1], l[0]];
  }

  /** Some line of the grid reports the word exactly when, in word_search's
      terms, some line holds it forwards or backwards. */
  lemma AnyPresentHeld(word: seq<char>, g: Grid)
    ensures AnyPresent(word, g) <==> WordSearch.HeldFrom(word, g, 0)
  {
    forall i | 0 <= i < |g|
      ensures PresentIn(word, g[i]) <==> WordSearch.HoldsEitherWay(g[i], word)
    {
      PresentAsHeld(word, g[i]);
    }
  }

  /** On a square grid of more than one row, handle_lists asks exactly what
      word_search's scans ask: does some row or some column hold the word
      either way round. */
  lemma SquareAgrees(word: seq<char>, g: Grid)
    requires |g| > 1 && forall j | 0 <= j < |g| :: |g[j]| == |g|
    ensures Fits(g) && WordSearch.Rotatable(g)
    ensures HandlePresent(word, g) <==>
      WordSearch.HeldFrom(word, g, 0) || WordSearch.HeldFrom(word, WordSearch.Columns(g), 0)
  {
    assert Verticals(g) == WordSearch.Columns(g);
    AnyPresentHeld(word, g);
    AnyPresentHeld(word, Verticals(g));
  }

  /** A line lacking one of the word's letters does not report it. */
  lemma Missing(word: seq<char>, l: seq<char>, k: nat)
    requires k < |word| && word[k] !in l
    ensures !PresentIn(word, l)
  {
    var r := Reverse(l);
    ReverseAt(l);
    forall i | 0 <= i <= |l|
      ensures !OccursAt(word, l, i) && !OccursAt(word, r, i)
    {
      if i + |word| <= |l| {
        assert l[i..i + |word|][k] == l[i + k];
        assert r[i..i + |word|][k] == l[|l| - 1 - (i + k)];
      }
    }
  }

  /** On a grid wider than it is high, handle_lists builds vertical lines
      only for the first row-count columns: "ab" runs down the last column
      of rows "xya" and "zwb", which word_search's column scan holds, yet
      handle_lists rejects it. */
  lemma WideGridMisses()
    ensures WordSearch.Rotatable([['x', 'y', 'a'], ['z', 'w', 'b']])
    ensures WordSearch.HeldFrom(['a', 'b'], WordSearch.Columns([['x', 'y', 'a'], ['z', 'w', 'b']]), 0)
    ensures !HandlePresent(['a', 'b'], [['x', 'y', 'a'], ['z', 'w', 'b']])
  {
    var g: Grid := [['x', 'y', 'a'], ['z', 'w', 'b']];
    var ab := ['a', 'b'];
    var cols := WordSearch.Columns(g);
    assert cols[2] == ab;
    assert OccursAt(ab, cols[2], 0);
    assert WordSearch.HoldsEitherWay(cols[2], ab);
    Missing(ab, g[0], 1);
    Missing(ab, g[1], 0);
    var v := Verticals(g);
    assert v[0] == ['x', 'z'] && v[1] == ['y', 'w'];
    Missing(ab, v[0], 0);
    Missing(ab, v[1], 0);
  }

  /** The span get_coordinates reports: (0, i) for i from the start it
      finds, clamped at 0, up to the length of the name. */
  function LegacySpan(name: seq<char>, row: seq<char>): (r: seq<RowCol>)
    ensures |r| <= |name|
    ensures forall k | 0 <= k < |r| :: r[k].0 == 0 && r[k].1 < |name|
  {
    var start := Find(row, name);
    var s := if start > 0 then start else 0;
    seq(if |name| > s then |name| - s else 0, k requires 0 <= k < |name| - s => (0, s + k))
  }

  /** A name found at the very start of the row gets one coordinate per
      letter, each in row 0 at the cell holding that letter. */
  lemma LegacySpanAtStart(name: seq<char>, row: seq<char>)
    requires OccursAt(name, row, 0)
    ensures |LegacySpan(name, row)| == |name|
    ensures forall k | 0 <= k < |name| :: LegacySpan(name, row)[k].1 < |row| && row[LegacySpan(name, row)[k].1] == name[k]
  {
    FindSpec(row, name);
    assert Find(row, name) == 0;
    assert forall k | 0 <= k < |name| :: row[k] == row[0..|name|][k];
  }

  /** A name found further along the row gets fewer coordinates than it has
      letters, and they start at the occurrence, so they never cover it
      whole. */
  lemma LegacySpanShort(name: seq<char>, row: seq<char>)
    requires Contains(row, name) && !OccursAt(name, row, 0)
    ensures |LegacySpan(name, row)| == if |name| > Find(row, name) then |name| - Find(row, name) else 0
    ensures |LegacySpan(name, row)| < |name| || |name| == 0
    ensures forall k | 0 <= k < |LegacySpan(name, row)| :: LegacySpan(name, row)[k].1 == Find(row, name) + k
  {
    FindSpec(row, name);
  }

  /** A name the row does not hold (find gives -1, clamped to 0) gets the
      whole span (0, 0) .. (0, len(name) - 1), whatever the row holds there. */
  lemma LegacySpanMissing(name: seq<char>, row: seq<char>)
    requires !Contains(row, name)
    ensures |LegacySpan(name, row)| == |name|
    ensures forall k | 0 <= k < |name| :: LegacySpan(name, row)[k] == (0, k)
  {
    FindSpec(row, name);
  }

  /** On the one-row grid "xab", handle_lists accepts "ab", but by then row 0
      reads "bax", which does not hold "ab"; get_coordinates answers the span
      (0, 0), (0, 1), whose cells hold 'x' and 'a' in the row as given and
      'b' and 'a' in the row as left. */
  lemma ReversedRowSpan()
    ensures HandlePresent(['a', 'b'], [['x', 'a', 'b']])
    ensures LegacySpan(['a', 'b'], Reverse(['x', 'a', 'b'])) == [(0, 0), (0, 1)]
    ensures ['x', 'a', 'b'][0..2] != ['a', 'b'] && Reverse(['x', 'a', 'b'])[0..2] != ['a', 'b']
  {
    var ab, row := ['a', 'b'], ['x', 'a', 'b'];
    assert OccursAt(ab, row, 1);
    assert Contains(row, ab);
    assert PresentIn(ab, [row][0]);
    assert AnyPresent(ab, [row]);
    var r := Reverse(row);
    ReverseAt(row);
    assert r == ['b', 'a', 'x'];
    assert r[0..2][0] == 'b' && r[1..3][1] == 'x';
    assert !OccursAt(ab, r, 0) && !OccursAt(ab, r, 1);
    assert !Contains(r, ab);
    LegacySpanMissing(ab, r);
  }

  /** get_coordinates: runs handle_lists, and when it accepts the name
      answers from the first row alone, which that call has just reversed;
      otherwise (also on an empty grid) answers None. */
  method GetCoordinates(name: seq<char>, lines: seq<array<char>>)
    returns (r: Option<map<seq<char>, seq<RowCol>>>)
    requires Distinct(lines) && Fits(Contents(lines))
    modifies Rows(lines)
    ensures Contents(lines) == AfterCheck(name, old(Contents(lines)))
    ensures |lines| > 0 ==> lines[0][..] == Reverse(old(lines[0][..]))
    ensures r == if |lines| > 0 && HandlePresent(name, old(Contents(lines)))
                 then Some(map[name := LegacySpan(name, Reverse(old(lines[0][..])))])
                 else None
  {
    ghost var g := Contents(lines);
    var present := HandleLists(name, lines);
    if present && |lines| > 0 {
      assert NoneBefore(name, g, 0);
      r := Some(map[name := LegacySpan(name, lines[0][..])]);
    } else {
      r := None;
    }
  }
}

/** Removing complete rows from the grid.

    The game collects the indices of the full rows scanning from the bottom row
    up, and then, for each collected index in that order, removes the row at
    that index from the current grid and puts an empty row on top. The indices
    are those of the grid before any removal, while every removal shifts the
    rows above it down by one; so from the second full row on, the row removed
    is not the one that was collected. ClearedAsWritten models this;
    ClearedIntended processes the same collected list in reverse, from the top
    down, the order in which the collected indices stay valid, and is proved to
    be the compaction the game intends. */
module LineClear {
  import opened Board

  /** The indices of the full rows of g in [lo, |g|), bottom row first: the
      list the scan from the last row to the first row builds. */
  function LinesToClear(g: Grid, lo: nat): (lines: seq<nat>)
    ensures forall i :: 0 <= i < |lines| ==> lo <= lines[i] < |g|
    decreases |g| - lo
  {
    if lo >= |g| then []
    else LinesToClear(g, lo + 1) + (if IsFull(g[lo]) then [lo] else [])
  }

  /** The full rows of g at index lo or below it on the screen. */
  function FullRowsFrom(g: Grid, lo: nat): set<nat> {
    set r: nat | lo <= r < |g| && IsFull(g[r])
  }

  /** One row removal: take out the row at index row, put an empty row on top. */
  function ClearStep(g: Grid, row: nat): Grid
    requires row < |g|
  {
    [EmptyRow()] + g[..row] + g[row + 1..]
  }

  /** The removals for the indices of rows, applied one after the other in the
      order of rows, each to the grid the previous one left. */
  function ApplyClears(g: Grid, rows: seq<nat>): (h: Grid)
    requires forall i :: 0 <= i < |rows| ==> rows[i] < |g|
    ensures |h| == |g|
    decreases |rows|
  {
    if rows == [] then g
    else ClearStep(ApplyClears(g, rows[..|rows| - 1]), rows[|rows| - 1])
  }

  /** The grid the game's row clearing leaves. */
  function ClearedAsWritten(g: Grid): Grid {
    ApplyClears(g, LinesToClear(g, 0))
  }

  /** The collected list holds exactly the full rows at or below lo, each
      once, from the bottom up. */
  lemma {:induction false} LinesToClearExact(g: Grid, lo: nat)
    ensures forall r: nat :: r in LinesToClear(g, lo) <==> lo <= r < |g| && IsFull(g[r])
    ensures forall i, j :: 0 <= i < j < |LinesToClear(g, lo)| ==>
      LinesToClear(g, lo)[i] > LinesToClear(g, lo)[j]
    decreases |g| - lo
  {
    if lo < |g| {
      LinesToClearExact(g, lo + 1);
    }
  }

  /** The number of rows cleared is the number of rows that are full before
      the clearing. */
  lemma {:induction false} LinesClearedCount(g: Grid, lo: nat)
    ensures |LinesToClear(g, lo)| == |FullRowsFrom(g, lo)|
    decreases |g| - lo
  {
    if lo < |g| {
      LinesClearedCount(g, lo + 1);
      if IsFull(g[lo]) {
        assert FullRowsFrom(g, lo) == FullRowsFrom(g, lo + 1) + {lo};
      } else {
        assert FullRowsFrom(g, lo) == FullRowsFrom(g, lo + 1);
      }
    } else {
      assert FullRowsFrom(g, lo) == {};
    }
  }

  /** Full rows below hi do not enter the list collected from hi on, and none
      in [lo, hi) means the lists from lo and from hi agree. */
  lemma {:induction false} LinesToClearSkip(g: Grid, lo: nat, hi: nat)
    requires lo <= hi
    requires forall q :: lo <= q < hi && q < |g| ==> !IsFull(g[q])
    ensures LinesToClear(g, lo) == LinesToClear(g, hi)
    decreases hi - lo
  {
    if lo < hi {
      LinesToClearSkip(g, lo + 1, hi);
      if lo >= |g| {
        assert LinesToClear(g, hi) == [];
      }
    }
  }

  /** Every removal keeps the grid ROWS rows of COLS cells. */
  lemma {:induction false} ApplyClearsWellFormed(g: Grid, rows: seq<nat>)
    requires WellFormedGrid(g)
    requires forall i :: 0 <= i < |rows| ==> rows[i] < |g|
    ensures WellFormedGrid(ApplyClears(g, rows))
    decreases |rows|
  {
    if rows != [] {
      var prev := rows[..|rows| - 1];
      ApplyClearsWellFormed(g, prev);
      var h := ApplyClears(g, prev);
      var row := rows[|rows| - 1];
      var h' := ClearStep(h, row);
      forall i | 0 <= i < |h'|
        ensures |h'[i]| == COLS
      {
        if i == 0 {
        } else if i <= row {
          assert h'[i] == h[i - 1];
        } else {
          assert h'[i] == h[i];
        }
      }
    }
  }

  /** After the clearing the grid still has ROWS rows of COLS cells. */
  lemma ClearLinesKeepsShape(g: Grid)
    requires WellFormedGrid(g)
    ensures WellFormedGrid(ClearedAsWritten(g))
  {
    ApplyClearsWellFormed(g, LinesToClear(g, 0));
  }

  /** With no full row nothing is collected and the grid is unchanged. */
  lemma ClearLinesNoFullRow(g: Grid)
    requires forall r :: 0 <= r < |g| ==> !IsFull(g[r])
    ensures LinesToClear(g, 0) == []
    ensures ClearedAsWritten(g) == g
  {
    LinesToClearSkip(g, 0, |g|);
    assert LinesToClear(g, |g|) == [];
  }

  /** With exactly one full row, that row is removed: the grid becomes an empty
      row followed by all other rows in their original order. */
  lemma ClearLinesOneFullRow(g: Grid, row: nat)
    requires row < |g| && IsFull(g[row])
    requires forall q :: 0 <= q < |g| && q != row ==> !IsFull(g[q])
    ensures LinesToClear(g, 0) == [row]
    ensures ClearedAsWritten(g) == [EmptyRow()] + g[..row] + g[row + 1..]
  {
    LinesToClearSkip(g, 0, row);
    LinesToClearSkip(g, row + 1, |g|);
    assert LinesToClear(g, |g|) == [];
    assert LinesToClear(g, row) == LinesToClear(g, row + 1) + [row];
    assert [row][..0] == [];
    assert ApplyClears(g, [row]) == ClearStep(ApplyClears(g, []), row);
  }

  /** The rows of s that are not full, in their original order. */
  function Kept(s: seq<Row>): seq<Row> {
    if s == [] then []
    else Kept(s[..|s| - 1]) + (if IsFull(s[|s| - 1]) then [] else [s[|s| - 1]])
  }

  /** A list of row indices in the opposite order. */
  function Reverse(s: seq<nat>): (r: seq<nat>)
    ensures |r| == |s| && forall i :: 0 <= i < |s| ==> r[i] == s[|s| - 1 - i]
  {
    if s == [] then [] else [s[|s| - 1]] + Reverse(s[..|s| - 1])
  }

  /** The indices of the full rows of g in [lo, hi), top row first. */
  function LinesTopDown(g: Grid, lo: nat, hi: nat): (lines: seq<nat>)
    requires hi <= |g|
    ensures forall i :: 0 <= i < |lines| ==> lo <= lines[i] < hi
    decreases hi
  {
    if hi <= lo then []
    else LinesTopDown(g, lo, hi - 1) + (if IsFull(g[hi - 1]) then [hi - 1] else [])
  }

  /** The top-down list of [lo, hi) starts with lo when row lo is full. */
  lemma {:induction false} LinesTopDownFirst(g: Grid, lo: nat, hi: nat)
    requires lo < hi <= |g|
    ensures LinesTopDown(g, lo, hi) ==
      (if IsFull(g[lo]) then [lo] else []) + LinesTopDown(g, lo + 1, hi)
    decreases hi
  {
    if hi > lo + 1 {
      LinesTopDownFirst(g, lo, hi - 1);
    } else {
      assert LinesTopDown(g, lo + 1, hi) == [];
      assert LinesTopDown(g, lo, lo) == [];
    }
  }

  /** The game's bottom-up list, reversed, is the top-down list of the same
      full rows. */
  lemma {:induction false} ScanReversed(g: Grid, lo: nat)
    requires lo <= |g|
    ensures Reverse(LinesToClear(g, lo)) == LinesTopDown(g, lo, |g|)
    decreases |g| - lo
  {
    if lo < |g| {
      ScanReversed(g, lo + 1);
      LinesTopDownFirst(g, lo, |g|);
      var later := LinesToClear(g, lo + 1);
      if IsFull(g[lo]) {
        assert (later + [lo])[..|later|] == later;
        assert Reverse(later + [lo]) == [lo] + Reverse(later);
      } else {
        assert later + [] == later;
      }
    } else {
      assert LinesTopDown(g, lo, |g|) == [];
    }
  }

  /** The clearing with the game's own collected list processed in reverse,
      from the top down. */
  function ClearedIntended(g: Grid): Grid {
    ApplyClears(g, Reverse(LinesToClear(g, 0)))
  }

  /** After the removals for the full rows above t, taken from the top down,
      the cleared rows are empty rows on top, then the kept rows above t in
      order, then the untouched rows from t on. */
  ghost predicate PrefixCleared(g: Grid, t: nat)
    requires t <= |g|
  {
    var lines := LinesTopDown(g, 0, t);
    |lines| + |Kept(g[..t])| == t &&
    ApplyClears(g, lines) == EmptyRows(|lines|) + Kept(g[..t]) + g[t..]
  }

  /** Removing full row t - 1 keeps the prefix picture. */
  lemma PrefixStepFull(g: Grid, t: nat)
    requires 0 < t <= |g| && IsFull(g[t - 1])
    requires PrefixCleared(g, t - 1)
    ensures PrefixCleared(g, t)
  {
    assert g[..t][..t - 1] == g[..t - 1];
    var lines := LinesTopDown(g, 0, t - 1);
    var kept := Kept(g[..t - 1]);
    var h := EmptyRows(|lines|) + kept + g[t - 1..];
    assert LinesTopDown(g, 0, t) == lines + [t - 1];
    assert (lines + [t - 1])[..|lines|] == lines;
    assert Kept(g[..t]) == kept;
    assert h[..t - 1] == EmptyRows(|lines|) + kept;
    assert h[t..] == g[t..];
    assert [EmptyRow()] + EmptyRows(|lines|) == EmptyRows(|lines| + 1);
  }

  /** Passing over non-full row t - 1 keeps the prefix picture. */
  lemma PrefixStepKept(g: Grid, t: nat)
    requires 0 < t <= |g| && !IsFull(g[t - 1])
    requires PrefixCleared(g, t - 1)
    ensures PrefixCleared(g, t)
  {
    assert g[..t][..t - 1] == g[..t - 1];
    var lines := LinesTopDown(g, 0, t - 1);
    var kept := Kept(g[..t - 1]);
    assert LinesTopDown(g, 0, t) == lines;
    assert Kept(g[..t]) == kept + [g[t - 1]];
    assert g[t - 1..] == [g[t - 1]] + g[t..];
  }

  /** Processing the full rows above t from the top down leaves the cleared
      rows as empty rows on top, then the kept rows above t in order, then the
      untouched rows from t on. */
  lemma {:induction false} ClearedIntendedPrefix(g: Grid, t: nat)
    requires t <= |g|
    ensures PrefixCleared(g, t)
  {
    if t > 0 {
      ClearedIntendedPrefix(g, t - 1);
      if IsFull(g[t - 1]) {
        PrefixStepFull(g, t);
      } else {
        PrefixStepKept(g, t);
      }
    } else {
      assert g[..0] == [] && g[0..] == g;
    }
  }

  /** No row of Kept(s) is full. */
  lemma {:induction false} KeptNotFull(s: seq<Row>)
    ensures forall i :: 0 <= i < |Kept(s)| ==> !IsFull(Kept(s)[i])
  {
    if s != [] {
      KeptNotFull(s[..|s| - 1]);
    }
  }

  /** The corrected clearing is the intended compaction: as many empty rows on
      top as rows were full, then every row that was not full, in its original
      order; the grid keeps its shape and no full row is left. */
  lemma ClearedIntendedCompacts(g: Grid)
    requires WellFormedGrid(g)
    ensures ClearedIntended(g) == EmptyRows(|LinesToClear(g, 0)|) + Kept(g)
    ensures WellFormedGrid(ClearedIntended(g))
    ensures forall r :: 0 <= r < ROWS ==> !IsFull(ClearedIntended(g)[r])
  {
    ScanReversed(g, 0);
    ClearedIntendedPrefix(g, |g|);
    assert g[..|g|] == g;
    assert g[|g|..] == [];
    ApplyClearsWellFormed(g, Reverse(LinesToClear(g, 0)));
    KeptNotFull(g);
    var n := |LinesToClear(g, 0)|;
    forall r | 0 <= r < ROWS
      ensures !IsFull(ClearedIntended(g)[r])
    {
      if r < n {
        assert ClearedIntended(g)[r] == EmptyRow();
        assert EmptyRow()[0] == Empty;
      } else {
        assert ClearedIntended(g)[r] == Kept(g)[r - n];
      }
    }
  }

  /** When exactly the two bottom rows are full, the game collects both, but
      the second removal takes out the non-full row above them: that row is
      lost and a full row stays at the bottom, where the intended clearing
      keeps the non-full row. */
  lemma AsWrittenTwoBottomRows(g: Grid)
    requires WellFormedGrid(g)
    requires IsFull(g[ROWS - 1]) && IsFull(g[ROWS - 2]) && !IsFull(g[ROWS - 3])
    requires forall q :: 0 <= q < ROWS - 2 ==> !IsFull(g[q])
    ensures LinesToClear(g, 0) == [ROWS - 1, ROWS - 2]
    ensures ClearedAsWritten(g) == EmptyRows(2) + g[..ROWS - 3] + [g[ROWS - 2]]
    ensures IsFull(ClearedAsWritten(g)[ROWS - 1])
    ensures !IsFull(ClearedIntended(g)[ROWS - 1])
    ensures ClearedAsWritten(g) != ClearedIntended(g)
  {
    LinesToClearSkip(g, 0, ROWS - 2);
    assert LinesToClear(g, ROWS) == [];
    assert LinesToClear(g, ROWS - 2) == [ROWS - 1, ROWS - 2];
    var lines := [ROWS - 1, ROWS - 2];
    assert lines[..1] == [ROWS - 1];
    assert [ROWS - 1][..0] == [];
    var once := ClearStep(g, ROWS - 1);
    assert once == [EmptyRow()] + g[..ROWS - 1];
    assert ApplyClears(g, [ROWS - 1]) == ClearStep(ApplyClears(g, []), ROWS - 1) == once;
    var twice := ClearStep(once, ROWS - 2);
    assert ApplyClears(g, lines) == ClearStep(ApplyClears(g, lines[..1]), ROWS - 2) == twice;
    assert twice == [EmptyRow()] + once[..ROWS - 2] + once[ROWS - 1..];
    assert once[..ROWS - 2] == [EmptyRow()] + g[..ROWS - 3];
    assert once[ROWS - 1..] == [g[ROWS - 2]];
    assert [EmptyRow()] + [EmptyRow()] == EmptyRows(2);
    ClearedIntendedCompacts(g);
  }
}

/** Vertically sorted directory listings (BATPROC/DIRCMDS.C, `do_dir`): which entry is shown at
    each place when sorted entries run down the columns of a page. */
module DirPages {

  /** The entry shown at place n of the page that holds places off to last - 1. */
  function Shown(n: nat, off: nat, last: nat, columns: nat): int
    requires columns >= 1 && off <= n
  {
    var rows := (last - off + (columns - 1)) / columns;
    var k := (n - off) % columns;
    var i := (n - off) / columns + k * rows + off;
    if last % columns != 0 && k > last % columns then i - (k - last % columns) else i
  }

  // ----- the columns of a page -----
  // A page of full * columns + over entries, over < columns: the first `over` columns are one
  // entry longer than the others.

  function Height(k: nat, full: nat, over: nat): nat {
    if k < over then full + 1 else full
  }

  /** How many entries the columns before k hold. */
  function Before(k: nat, full: nat, over: nat): nat {
    if k == 0 then 0 else Before(k - 1, full, over) + Height(k - 1, full, over)
  }

  function Rows(full: nat, over: nat): nat {
    if over == 0 then full else full + 1
  }

  lemma {:induction false} BeforeFormula(k: nat, full: nat, over: nat)
    ensures Before(k, full, over)
      == if over != 0 && k > over then k * Rows(full, over) - (k - over) else k * Rows(full, over)
  {
    if k > 0 {
      BeforeFormula(k - 1, full, over);
      assert k * Rows(full, over) == (k - 1) * Rows(full, over) + Rows(full, over);
    }
  }

  lemma {:induction false} BeforeGrows(k: nat, m: nat, full: nat, over: nat)
    requires k < m
    ensures Before(k, full, over) + Height(k, full, over) <= Before(m, full, over)
    decreases m
  {
    if k + 1 < m {
      BeforeGrows(k, m - 1, full, over);
    }
  }

  lemma BeforeAll(columns: nat, full: nat, over: nat)
    requires over < columns
    ensures Before(columns, full, over) == full * columns + over
  {
    BeforeFormula(columns, full, over);
    assert columns * (full + 1) == full * columns + columns;
  }

  // ----- arithmetic of places -----

  /** A place is a row and a column. */
  lemma PlaceParts(x: nat, c: nat, row: nat, k: nat)
    requires k < c && x == row * c + k
    ensures x / c == row && x % c == k
  {
    assert (x / c) * c + x % c == x;
    assert (x / c - row) * c == k - x % c;
    OnlyZero(x / c - row, c, k - x % c);
  }

  lemma OnlyZero(a: int, c: nat, d: int)
    requires a * c == d && 0 < d + c && d < c
    ensures a == 0
  {
    if a >= 1 {
      MulGrows(a, c);
    } else if a <= -1 {
      MulGrows(-a, c);
      MulMinus(a, c);
    }
  }

  lemma MulMinus(a: int, c: int)
    ensures (-a) * c == -(a * c)
  {
  }

  lemma {:induction false} MulGrows(a: nat, c: nat)
    requires a >= 1
    ensures a * c >= c
  {
    if a > 1 {
      MulGrows(a - 1, c);
      assert a * c == (a - 1) * c + c;
    }
  }

  lemma Recompose(x: nat, c: nat)
    requires c >= 1
    ensures x == (x / c) * c + x % c && x % c < c
  {
  }

  /** The page geometry behind the formula: off starts a row. */
  ghost predicate Page(off: nat, last: nat, c: nat, first: nat, full: nat, over: nat) {
    c >= 1 && over < c && off == first * c && last == off + full * c + over
  }

  lemma PageOf(off: nat, last: nat, c: nat) returns (first: nat, full: nat, over: nat)
    requires c >= 1 && off % c == 0 && off <= last
    ensures Page(off, last, c, first, full, over)
  {
    Recompose(off, c);
    Recompose(last - off, c);
    first, full, over := off / c, (last - off) / c, (last - off) % c;
  }

  lemma PageRows(off: nat, last: nat, c: nat, first: nat, full: nat, over: nat)
    requires Page(off, last, c, first, full, over)
    ensures last % c == over && (last - off + (c - 1)) / c == Rows(full, over)
  {
    assert last == (first + full) * c + over;
    PlaceParts(last, c, first + full, over);
    var x := last - off + (c - 1);
    if over == 0 {
      PlaceParts(x, c, full, c - 1);
    } else {
      assert x == (full + 1) * c + (over - 1);
      PlaceParts(x, c, full + 1, over - 1);
    }
  }

  /** The formula puts row `row` of column k right after the columns before it. */
  lemma ShownAt(off: nat, last: nat, c: nat, first: nat, full: nat, over: nat, row: nat, k: nat)
    requires Page(off, last, c, first, full, over) && k < c
    ensures Shown(off + (row * c + k), off, last, c) == off + Before(k, full, over) + row
  {
    PageRows(off, last, c, first, full, over);
    PlaceParts(row * c + k, c, row, k);
    BeforeFormula(k, full, over);
  }

  /** A place on the page is a row that its column has. */
  lemma RowFits(c: nat, full: nat, over: nat, row: nat, k: nat)
    requires over < c && k < c
    ensures row * c + k < full * c + over <==> row < Height(k, full, over)
  {
    if row < full {
      assert (row + 1) * c <= full * c;
    } else if row > full {
      assert (full + 1) * c <= row * c;
    }
  }

  /** The row and column of a place, with what they say of the entry shown there. */
  lemma Place(n: nat, off: nat, last: nat, c: nat, first: nat, full: nat, over: nat) returns (row: nat, k: nat)
    requires Page(off, last, c, first, full, over) && off <= n < last
    ensures k < c && n == off + (row * c + k) && row < Height(k, full, over)
    ensures Shown(n, off, last, c) == off + Before(k, full, over) + row
  {
    Recompose(n - off, c);
    row, k := (n - off) / c, (n - off) % c;
    RowFits(c, full, over, row, k);
    ShownAt(off, last, c, first, full, over, row, k);
  }

  /** A row of a column is a place on the page. */
  lemma PlaceFor(off: nat, last: nat, c: nat, first: nat, full: nat, over: nat, row: nat, k: nat) returns (n: nat)
    requires Page(off, last, c, first, full, over) && k < c && row < Height(k, full, over)
    ensures off <= n < last && Shown(n, off, last, c) == off + Before(k, full, over) + row
  {
    RowFits(c, full, over, row, k);
    ShownAt(off, last, c, first, full, over, row, k);
    n := off + (row * c + k);
  }

  /** A page shows its own entries only. */
  lemma ShownOnPage(n: nat, off: nat, last: nat, c: nat)
    requires c >= 1 && off % c == 0 && off <= n < last
    ensures off <= Shown(n, off, last, c) < last
  {
    var first, full, over := PageOf(off, last, c);
    var row, k := Place(n, off, last, c, first, full, over);
    BeforeGrows(k, c, full, over);
    BeforeAll(c, full, over);
  }

  /** No entry is shown twice on a page. */
  lemma ShownOnce(m: nat, n: nat, off: nat, last: nat, c: nat)
    requires c >= 1 && off % c == 0 && off <= m < n < last
    ensures Shown(m, off, last, c) != Shown(n, off, last, c)
  {
    var first, full, over := PageOf(off, last, c);
    var row1, k1 := Place(m, off, last, c, first, full, over);
    var row2, k2 := Place(n, off, last, c, first, full, over);
    if k1 < k2 {
      BeforeGrows(k1, k2, full, over);
    } else if k2 < k1 {
      BeforeGrows(k2, k1, full, over);
    }
  }

  /** The column that holds the e-th entry of a page. */
  lemma {:induction false} ColumnOf(e: nat, m: nat, full: nat, over: nat) returns (k: nat)
    requires e < Before(m, full, over)
    ensures k < m && Before(k, full, over) <= e < Before(k, full, over) + Height(k, full, over)
    decreases m
  {
    if Before(m - 1, full, over) <= e {
      k := m - 1;
    } else {
      k := ColumnOf(e, m - 1, full, over);
    }
  }

  /** Every entry of a page is shown on it. */
  lemma ShownAll(e: nat, off: nat, last: nat, c: nat) returns (n: nat)
    requires c >= 1 && off % c == 0 && off <= e < last
    ensures off <= n < last && Shown(n, off, last, c) == e
  {
    var first, full, over := PageOf(off, last, c);
    BeforeAll(c, full, over);
    var k := ColumnOf(e - off, c, full, over);
    n := PlaceFor(off, last, c, first, full, over, e - off - Before(k, full, over), k);
  }

  /** Reading down: below each entry stands the next one; a column starts where the column to its
      left ends; and the page starts with its first entry. */
  lemma ReadsDown(n: nat, off: nat, last: nat, c: nat)
    requires c >= 1 && off % c == 0 && off <= n < last
    ensures n == off ==> Shown(n, off, last, c) == off
    ensures n + c < last ==> Shown(n + c, off, last, c) == Shown(n, off, last, c) + 1
    ensures n + c >= last && (n - off) % c + 1 < c && off + (n - off) % c + 1 < last ==>
      Shown(off + (n - off) % c + 1, off, last, c) == Shown(n, off, last, c) + 1
  {
    var first, full, over := PageOf(off, last, c);
    var row, k := Place(n, off, last, c, first, full, over);
    PlaceParts(n - off, c, row, k);
    assert (row + 1) * c + k == row * c + k + c;
    RowFits(c, full, over, row + 1, k);
    if n + c < last {
      ShownAt(off, last, c, first, full, over, row + 1, k);
    } else if k + 1 < c {
      ShownAt(off, last, c, first, full, over, 0, k + 1);
    }
  }

  // ----- the listing -----

  /** Places off to last - 1 make a page: it starts a row, and shows its entries as `Shown` says. */
  ghost predicate IsPage(order: seq<nat>, off: nat, last: nat, columns: nat) {
    columns >= 1 && off % columns == 0 && off < last <= |order|
    && forall n :: off <= n < last ==> order[n] == Shown(n, off, last, columns)
  }

  /** Up to place `end` the places are cut into pages, one after another. */
  ghost predicate Paged(order: seq<nat>, pages: seq<nat>, columns: nat, end: nat) {
    pages != [] && pages[0] == 0 && pages[|pages| - 1] == end
    && forall p, q :: 0 <= p < q < |pages| && q == p + 1 ==> IsPage(order, pages[p], pages[q], columns)
  }

  lemma NextPage(order: seq<nat>, pages: seq<nat>, columns: nat, off: nat, last: nat)
    requires Paged(order, pages, columns, off) && IsPage(order, off, last, columns)
    ensures Paged(order, pages + [last], columns, last)
  {
  }

  lemma PagesKept(order: seq<nat>, more: seq<nat>, pages: seq<nat>, columns: nat, off: nat)
    requires Paged(order, pages, columns, off) && order <= more
    ensures Paged(more, pages, columns, off)
  {
    forall p, q | 0 <= p < q < |pages| && q == p + 1 ensures IsPage(more, pages[p], pages[q], columns) {
      assert IsPage(order, pages[p], pages[q], columns);
    }
  }

  /** The page under way: places off to n - 1 are filled. */
  ghost predicate Filling(order: seq<nat>, off: nat, n: nat, last: nat, columns: nat) {
    columns >= 1 && off % columns == 0 && off <= n <= |order| && n <= last
    && forall m: nat :: off <= m < n ==> order[m] == Shown(m, off, last, columns)
  }

  /** A paged listing shows every entry exactly once. */
  lemma {:induction false} PagedShowsAll(order: seq<nat>, pages: seq<nat>, columns: nat, e: nat, p: nat)
    requires Paged(order, pages, columns, |order|) && p < |pages| && pages[p] <= e < |order|
    ensures e in order[pages[p]..]
    decreases |pages| - p
  {
    assert p + 1 < |pages|;
    assert IsPage(order, pages[p], pages[p + 1], columns);
    if e < pages[p + 1] {
      var n := ShownAll(e, pages[p], pages[p + 1], columns);
      assert order[pages[p]..][n - pages[p]] == e;
    } else {
      PagedShowsAll(order, pages, columns, e, p + 1);
      var n :| pages[p + 1] <= n < |order| && order[n] == e;
      assert order[pages[p]..][n - pages[p]] == e;
    }
  }

  /** The listing loop: which entry is shown at each place.  A page runs from the current row to
      the bottom of the screen, or to the last entry; `row` counts screen rows as they fill, unless
      only a summary is wanted. */
  method ListVertically(entries: nat, columns: nat, pageLength: nat, row0: nat, summary: bool)
    returns (order: seq<nat>, ghost pages: seq<nat>)
    requires columns >= 1 && (pageLength > 0 ==> row0 < pageLength)
    ensures |order| == entries && Paged(order, pages, columns, entries)
    ensures forall e :: 0 <= e < entries ==> e in order
    ensures forall e :: e in order ==> e < entries
  {
    var row: nat := row0;
    var lastEntry: nat, vOffset: nat := 0, 0;
    order, pages := [], [0];
    var n: nat := 0;
    while n < entries
      invariant n == |order| <= entries && n <= lastEntry <= entries
      invariant pageLength > 0 ==> row < pageLength
      invariant lastEntry < entries ==> lastEntry % columns == 0
      invariant n == 0 ==> lastEntry == 0
      invariant n > 0 ==> vOffset < n
      invariant Filling(order, vOffset, n, lastEntry, columns) && Paged(order, pages, columns, vOffset)
      invariant forall e :: e in order ==> e < entries
    {
      if n >= lastEntry {
        if n > 0 {
          NextPage(order, pages, columns, vOffset, lastEntry);
          pages := pages + [lastEntry];
        }
        vOffset := lastEntry;
        lastEntry := PageEnd(entries, columns, pageLength, row, lastEntry);
      }
      ShownOnPage(n, vOffset, lastEntry, columns);
      PagesKept(order, order + [Shown(n, vOffset, lastEntry, columns)], pages, columns, vOffset);
      order := order + [Shown(n, vOffset, lastEntry, columns)];
      if !summary && (n + 1) % columns == 0 {
        row := row + 1;
        if row == pageLength {
          row := 0;
        }
      }
      n := n + 1;
    }
    if n > 0 {
      NextPage(order, pages, columns, vOffset, lastEntry);
      pages := pages + [lastEntry];
    }
    forall e | 0 <= e < entries ensures e in order {
      PagedShowsAll(order, pages, columns, e, 0);
    }
  }

  /** Where the page that starts at `off` ends. */
  method PageEnd(entries: nat, columns: nat, pageLength: nat, row: nat, off: nat) returns (lastEntry: nat)
    requires columns >= 1 && off < entries && off % columns == 0 && (pageLength > 0 ==> row < pageLength)
    ensures off < lastEntry <= entries && (lastEntry < entries ==> lastEntry % columns == 0)
  {
    if pageLength == 0 {
      return entries;
    }
    PageFits(off, columns, pageLength - row);
    lastEntry := off + columns * (pageLength - row);
    if lastEntry > entries {
      lastEntry := entries;
    }
  }

  lemma PageFits(off: nat, columns: nat, rows: nat)
    requires columns >= 1 && rows >= 1 && off % columns == 0
    ensures (off + columns * rows) % columns == 0 && off + columns * rows > off
  {
    Recompose(off, columns);
    PlaceParts(off + columns * rows, columns, off / columns + rows, 0);
  }
}

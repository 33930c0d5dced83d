/**
 * luna/js/nav.js: grouping the visible elements into rows by position, and moving the focus over
 * the resulting grid.  Coordinates are reals, flat indices and columns are naturals.
 */
module Navigation {
  import opened Bits

  datatype Element = Element(id: nat, top: real, left: real, slider: bool)

  datatype Cell = Cell(el: Element, row: nat, col: nat)

  datatype Key = ArrowRight | ArrowLeft | ArrowDown | ArrowUp | Enter

  const ROW_HEIGHT: real := 24.0
  const LAST_COLUMN: nat := 999

  // ---------------------------------------------------------------------------
  // Sorting

  datatype Order = ByTopThenLeft | ByLeft

  predicate Le(order: Order, a: Element, b: Element) {
    match order
    case ByTopThenLeft => a.top < b.top || (a.top == b.top && a.left <= b.left)
    case ByLeft => a.left <= b.left
  }

  predicate SortedBy(order: Order, s: seq<Element>) {
    forall i, j :: 0 <= i < j < |s| ==> Le(order, s[i], s[j])
  }

  /** Stable insertion: after everything not greater. */
  function Insert(order: Order, s: seq<Element>, x: Element): (r: seq<Element>)
    requires SortedBy(order, s)
    ensures multiset(r) == multiset(s) + multiset{x} && |r| == |s| + 1
    ensures SortedBy(order, r)
    ensures forall e :: e in r <==> e in s || e == x
  {
    if s == [] || Le(order, s[|s| - 1], x) then s + [x]
    else
      var front, last := s[..|s| - 1], s[|s| - 1];
      assert s == front + [last];
      var r := Insert(order, front, x);
      assert forall e :: e in r ==> Le(order, e, last);
      r + [last]
  }

  /** `Array.prototype.sort`, which is stable. */
  function Sort(order: Order, s: seq<Element>): (r: seq<Element>)
    ensures multiset(r) == multiset(s) && |r| == |s|
    ensures SortedBy(order, r)
  {
    if s == [] then []
    else
      assert s == s[..|s| - 1] + [s[|s| - 1]];
      Insert(order, Sort(order, s[..|s| - 1]), s[|s| - 1])
  }

  predicate Tie(order: Order, a: Element, b: Element) {
    Le(order, a, b) && Le(order, b, a)
  }

  /** The elements that tie with x, in order. */
  function Ties(order: Order, s: seq<Element>, x: Element): seq<Element> {
    if s == [] then []
    else
      Ties(order, s[..|s| - 1], x) + if Tie(order, s[|s| - 1], x) then [s[|s| - 1]] else []
  }

  lemma TiesSnoc(order: Order, s: seq<Element>, e: Element, x: Element)
    ensures Ties(order, s + [e], x) == Ties(order, s, x) + if Tie(order, e, x) then [e] else []
  {
    assert (s + [e])[..|s|] == s;
  }

  lemma {:induction false} InsertStable(order: Order, s: seq<Element>, e: Element, x: Element)
    requires SortedBy(order, s)
    ensures Ties(order, Insert(order, s, e), x) == Ties(order, s + [e], x)
    decreases |s|
  {
    hide Ties, SortedBy;
    if s != [] && !Le(order, s[|s| - 1], e) {
      var front, last := s[..|s| - 1], s[|s| - 1];
      FrontSorted(order, s);
      InsertStable(order, front, e, x);
      TiesSnoc(order, Insert(order, front, e), last, x);
      TiesSnoc(order, front, e, x);
      TiesSnoc(order, front, last, x);
      TiesSnoc(order, s, e, x);
      assert s == front + [last];
      NotBothTie(order, last, e, x);
    }
  }

  lemma FrontSorted(order: Order, s: seq<Element>)
    requires s != [] && SortedBy(order, s)
    ensures SortedBy(order, s[..|s| - 1])
  {
  }

  lemma NotBothTie(order: Order, a: Element, b: Element, x: Element)
    requires !Le(order, a, b)
    ensures !(Tie(order, a, x) && Tie(order, b, x))
  {
  }

  /** Sorting is stable: elements that tie keep their order. */
  lemma {:induction false} SortStable(order: Order, s: seq<Element>, x: Element)
    ensures Ties(order, Sort(order, s), x) == Ties(order, s, x)
    decreases |s|
  {
    if s != [] {
      var front, last := s[..|s| - 1], s[|s| - 1];
      assert s == front + [last];
      SortStable(order, front, x);
      InsertStable(order, Sort(order, front), last, x);
      TiesSnoc(order, Sort(order, front), last, x);
      TiesSnoc(order, front, last, x);
    }
  }

  // ---------------------------------------------------------------------------
  // Rows

  function Flatten(rows: seq<seq<Element>>): seq<Element> {
    if rows == [] then [] else Flatten(rows[..|rows| - 1]) + rows[|rows| - 1]
  }

  /** A row hangs below its first-grouped element, within the row height. */
  predicate RowFrom(row: seq<Element>, anchor: real) {
    && row != []
    && (forall e :: e in row ==> anchor <= e.top < anchor + ROW_HEIGHT)
    && (exists e :: e in row && e.top == anchor)
  }

  /** The tops of the rows' first-grouped elements, a row height or more apart. */
  predicate Spaced(anchors: seq<real>) {
    forall i, j :: 0 <= i < j < |anchors| ==> anchors[j] - anchors[i] >= ROW_HEIGHT
  }

  ghost predicate Rows(rows: seq<seq<Element>>, anchors: seq<real>) {
    && |anchors| == |rows| && Spaced(anchors)
    && forall r :: 0 <= r < |rows| ==> RowFrom(rows[r], anchors[r])
  }

  function Abs(x: real): real {
    if x < 0.0 then -x else x
  }

  /** The grouping loop of `refresh`; `anchors` are the tops of the rows' first elements. */
  method GroupRows(sorted: seq<Element>) returns (rows: seq<seq<Element>>, ghost anchors: seq<real>)
    requires SortedBy(ByTopThenLeft, sorted)
    ensures Flatten(rows) == sorted && Rows(rows, anchors)
    ensures sorted != [] ==> rows != []
  {
    rows, anchors := [], [];
    for i := 0 to |sorted|
      invariant Flatten(rows) == sorted[..i] && Rows(rows, anchors)
      invariant i > 0 ==> rows != []
      invariant rows != [] ==> anchors[|rows| - 1] == rows[|rows| - 1][0].top
      invariant rows != [] ==> i > 0 && anchors[|rows| - 1] <= sorted[i - 1].top
    {
      var item := sorted[i];
      assert sorted[..i + 1] == sorted[..i] + [item];
      if rows != [] && Abs(item.top - rows[|rows| - 1][0].top) < ROW_HEIGHT {
        var last := rows[|rows| - 1];
        GrowRow(rows, anchors, item);
        rows := rows[|rows| - 1 := last + [item]];
      } else {
        StartRow(rows, anchors, item);
        FlattenMore(rows, [item]);
        rows, anchors := rows + [[item]], anchors + [item.top];
      }
    }
    assert sorted[..|sorted|] == sorted;
  }

  lemma GrowRow(rows: seq<seq<Element>>, anchors: seq<real>, item: Element)
    requires rows != [] && Rows(rows, anchors)
    requires anchors[|rows| - 1] <= item.top < anchors[|rows| - 1] + ROW_HEIGHT
    ensures var grown := rows[|rows| - 1 := rows[|rows| - 1] + [item]];
      Rows(grown, anchors) && Flatten(grown) == Flatten(rows) + [item]
  {
    var last := rows[|rows| - 1];
    var grown := rows[|rows| - 1 := last + [item]];
    assert grown[..|rows| - 1] == rows[..|rows| - 1];
    assert RowFrom(last, anchors[|rows| - 1]);
    var e :| e in last && e.top == anchors[|rows| - 1];
    assert e in last + [item];
    assert RowFrom(last + [item], anchors[|rows| - 1]);
  }

  lemma SpacedMore(anchors: seq<real>, top: real)
    requires Spaced(anchors) && (anchors != [] ==> top - anchors[|anchors| - 1] >= ROW_HEIGHT)
    ensures Spaced(anchors + [top])
  {
    var longer := anchors + [top];
    forall i, j | 0 <= i < j < |longer|
      ensures longer[j] - longer[i] >= ROW_HEIGHT
    {
      if j == |anchors| && i < |anchors| - 1 {
        assert anchors[|anchors| - 1] - anchors[i] >= ROW_HEIGHT;
      }
    }
  }

  lemma StartRow(rows: seq<seq<Element>>, anchors: seq<real>, item: Element)
    requires Rows(rows, anchors)
    requires rows != [] ==> item.top - anchors[|rows| - 1] >= ROW_HEIGHT
    ensures Rows(rows + [[item]], anchors + [item.top])
  {
    hide RowFrom, Spaced;
    SingleRow(item);
    SpacedMore(anchors, item.top);
  }

  lemma SingleRow(item: Element)
    ensures RowFrom([item], item.top)
  {
    assert item in [item];
  }

  /**
   * Rows 24 or more apart, each within 24 below its topmost element, and read from left to right,
   * what lies at the same left edge from top to bottom.
   */
  ghost predicate ReadsInOrder(rows: seq<seq<Element>>, anchors: seq<real>) {
    && |rows| == |anchors|
    && (forall q, r :: 0 <= q < r < |rows| ==> anchors[r] - anchors[q] >= 24.0)
    && (forall r :: 0 <= r < |rows| ==> Within(rows[r], anchors[r]) && LeftThenTop(rows[r]))
  }

  /** The topmost element lies at the anchor, the others within 24 below it. */
  ghost predicate Within(row: seq<Element>, anchor: real) {
    (exists e :: e in row && e.top == anchor) && forall e :: e in row ==> anchor <= e.top < anchor + 24.0
  }

  ghost predicate LeftThenTop(row: seq<Element>) {
    forall i, j :: 0 <= i < j < |row| ==>
      row[i].left < row[j].left || (row[i].left == row[j].left && row[i].top <= row[j].top)
  }

  ghost predicate TopDown(s: seq<Element>) {
    forall i, j :: 0 <= i < j < |s| ==> s[i].top <= s[j].top
  }

  lemma InsertLeftThenTop(s: seq<Element>, x: Element)
    requires SortedBy(ByLeft, s) && LeftThenTop(s) && forall e :: e in s ==> e.top <= x.top
    ensures LeftThenTop(Insert(ByLeft, s, x))
    decreases |s|
  {
    if s != [] && !Le(ByLeft, s[|s| - 1], x) {
      var front, last := s[..|s| - 1], s[|s| - 1];
      InsertLeftThenTop(front, x);
      var r := Insert(ByLeft, front, x);
      forall i | 0 <= i < |r|
        ensures r[i].left < last.left || (r[i].left == last.left && r[i].top <= last.top)
      {
        assert r[i] in r;
        assert r[i] in front || r[i] == x;
      }
      LeftThenTopSnoc(r, last);
    } else {
      forall i | 0 <= i < |s|
        ensures s[i].left < x.left || (s[i].left == x.left && s[i].top <= x.top)
      {
        assert s[i] in s && Le(ByLeft, s[i], s[|s| - 1]);
      }
      LeftThenTopSnoc(s, x);
    }
  }

  lemma LeftThenTopSnoc(s: seq<Element>, x: Element)
    requires LeftThenTop(s)
    requires forall i :: 0 <= i < |s| ==> s[i].left < x.left || (s[i].left == x.left && s[i].top <= x.top)
    ensures LeftThenTop(s + [x])
  {
  }

  lemma {:induction false} SortLeftThenTop(s: seq<Element>)
    requires TopDown(s)
    ensures LeftThenTop(Sort(ByLeft, s))
    decreases |s|
  {
    if s != [] {
      var front, last := s[..|s| - 1], s[|s| - 1];
      SortLeftThenTop(front);
      forall e | e in Sort(ByLeft, front)
        ensures e.top <= last.top
      {
        assert e in multiset(front);
      }
      InsertLeftThenTop(Sort(ByLeft, front), last);
    }
  }

  lemma {:induction false} RowsTopDown(rows: seq<seq<Element>>, r: nat)
    requires TopDown(Flatten(rows)) && r < |rows|
    ensures TopDown(rows[r])
    decreases |rows|
  {
    var n := |rows| - 1;
    TopDownParts(Flatten(rows[..n]), rows[n]);
    if r < n {
      RowsTopDown(rows[..n], r);
    }
  }

  lemma TopDownParts(a: seq<Element>, b: seq<Element>)
    requires TopDown(a + b)
    ensures TopDown(a) && TopDown(b)
  {
    var s := a + b;
    forall i, j | 0 <= i < j < |b|
      ensures b[i].top <= b[j].top
    {
      assert s[|a| + i] == b[i] && s[|a| + j] == b[j];
    }
    forall i, j | 0 <= i < j < |a|
      ensures a[i].top <= a[j].top
    {
      assert s[i] == a[i] && s[j] == a[j];
    }
  }

  lemma SortedTopDown(s: seq<Element>)
    requires SortedBy(ByTopThenLeft, s)
    ensures TopDown(s)
  {
  }

  lemma SpacedApart(anchors: seq<real>)
    requires Spaced(anchors)
    ensures forall q, r :: 0 <= q < r < |anchors| ==> anchors[r] - anchors[q] >= 24.0
  {
  }

  lemma RowWithin(row: seq<Element>, anchor: real)
    requires RowFrom(row, anchor)
    ensures Within(row, anchor)
  {
  }

  lemma RowsReadInOrder(raw: seq<seq<Element>>, rows: seq<seq<Element>>, anchors: seq<real>)
    requires SortedBy(ByTopThenLeft, Flatten(raw)) && Rows(rows, anchors) && |raw| == |rows|
    requires forall r :: 0 <= r < |rows| ==> rows[r] == Sort(ByLeft, raw[r])
    ensures ReadsInOrder(rows, anchors)
  {
    hide Flatten, SortedBy, RowFrom, Within, LeftThenTop, TopDown, Sort, Spaced;
    SortedTopDown(Flatten(raw));
    SpacedApart(anchors);
    forall r | 0 <= r < |rows|
      ensures LeftThenTop(rows[r]) && Within(rows[r], anchors[r])
    {
      RowsTopDown(raw, r);
      SortLeftThenTop(raw[r]);
      RowWithin(rows[r], anchors[r]);
    }
  }

  /** Each row sorted by the left edge: the same rows, reordered inside. */
  method SortRows(raw: seq<seq<Element>>, ghost anchors: seq<real>) returns (rows: seq<seq<Element>>)
    requires Rows(raw, anchors)
    ensures |rows| == |raw| && Rows(rows, anchors)
    ensures multiset(Flatten(rows)) == multiset(Flatten(raw))
    ensures forall r :: 0 <= r < |rows| ==> rows[r] == Sort(ByLeft, raw[r])
  {
    hide RowFrom, Flatten, SortedBy, Spaced, Sort;
    rows := [];
    for r := 0 to |raw|
      invariant |rows| == r && multiset(Flatten(rows)) == multiset(Flatten(raw[..r]))
      invariant forall k :: 0 <= k < r ==> rows[k] == Sort(ByLeft, raw[k]) && RowFrom(rows[k], anchors[k])
    {
      SortedRowStays(raw[r], anchors[r]);
      FlattenMore(rows, Sort(ByLeft, raw[r]));
      FlattenMore(raw[..r], raw[r]);
      assert raw[..r + 1] == raw[..r] + [raw[r]];
      assert multiset(Flatten(rows) + Sort(ByLeft, raw[r])) == multiset(Flatten(rows)) + multiset(raw[r]);
      assert multiset(Flatten(raw[..r]) + raw[r]) == multiset(Flatten(raw[..r])) + multiset(raw[r]);
      rows := rows + [Sort(ByLeft, raw[r])];
    }
    assert raw[..|raw|] == raw;
  }

  lemma FlattenMore(rows: seq<seq<Element>>, row: seq<Element>)
    ensures Flatten(rows + [row]) == Flatten(rows) + row
  {
    assert (rows + [row])[..|rows|] == rows;
  }

  lemma RowsNonempty(rows: seq<seq<Element>>, anchors: seq<real>)
    requires Rows(rows, anchors)
    ensures forall r :: 0 <= r < |rows| ==> rows[r] != []
  {
  }

  lemma SortedRowStays(row: seq<Element>, anchor: real)
    requires RowFrom(row, anchor)
    ensures RowFrom(Sort(ByLeft, row), anchor)
  {
    var s := Sort(ByLeft, row);
    forall e
      ensures e in s <==> e in row
    {
      assert e in s <==> e in multiset(s);
      assert e in row <==> e in multiset(row);
    }
    var e :| e in row && e.top == anchor;
    assert e in s;
  }

  // ---------------------------------------------------------------------------
  // The grid

  /** The flat index of the first element of row r. */
  function Start<T>(rows: seq<seq<T>>, r: nat): nat
    requires r <= |rows|
  {
    if r == 0 then 0 else Start(rows, r - 1) + |rows[r - 1]|
  }

  /** Flat indices run through the rows from left to right and top to bottom. */
  ghost predicate Laid(grid: seq<Cell>, rows: seq<seq<nat>>) {
    && |grid| == Start(rows, |rows|)
    && (forall r :: 0 <= r < |rows| ==> rows[r] != [])
    && (forall r, c :: 0 <= r < |rows| && 0 <= c < |rows[r]| ==> rows[r][c] == Start(rows, r) + c)
    && (forall i :: 0 <= i < |grid| ==>
        && grid[i].row < |rows| && grid[i].col < |rows[grid[i].row]|
        && i == Start(rows, grid[i].row) + grid[i].col)
  }

  lemma {:induction false} StartMonotone<T>(rows: seq<seq<T>>, r: nat, q: nat)
    requires r <= q <= |rows|
    ensures Start(rows, r) <= Start(rows, q)
    ensures r < q ==> Start(rows, r) + |rows[r]| <= Start(rows, q)
    decreases q
  {
    if r < q {
      StartMonotone(rows, r, q - 1);
    }
  }

  /** A position determines its flat index and the other way round. */
  lemma CellAt(grid: seq<Cell>, rows: seq<seq<nat>>, r: nat, c: nat)
    requires Laid(grid, rows) && r < |rows| && c < |rows[r]|
    ensures rows[r][c] < |grid| && grid[rows[r][c]].row == r && grid[rows[r][c]].col == c
  {
    StartMonotone(rows, r, |rows|);
    var i := rows[r][c];
    assert i == Start(rows, r) + c;
    var q := grid[i].row;
    if r < q {
      StartMonotone(rows, r, q);
    } else if q < r {
      StartMonotone(rows, q, r);
    }
  }

  /** `(i + 1) % n`. */
  function Next(i: nat, n: nat): (r: nat)
    requires i < n
    ensures r == if i + 1 == n then 0 else i + 1
  {
    (i + 1) % n
  }

  /** `(i - 1 + n) % n`. */
  function Prev(i: nat, n: nat): (r: nat)
    requires i < n
    ensures r == if i == 0 then n - 1 else i - 1
  {
    assert i > 0 ==> (i + n - 1) % n == i - 1 by { if i > 0 { ModUnique(i + n - 1, n, 1, i - 1); } }
    (i + n - 1) % n
  }

  function Min(a: nat, b: nat): nat {
    if a < b then a else b
  }

  /** The element of a row nearest to a column: that column, or the last one. */
  function Nearest(rows: seq<seq<nat>>, r: nat, col: nat): nat
    requires r < |rows| && rows[r] != []
  {
    rows[r][Min(col, |rows[r]| - 1)]
  }

  /** Every flat index has its place, and every row has a first and a last element. */
  lemma PlaceOf(grid: seq<Cell>, rows: seq<seq<nat>>, f: nat)
    requires Laid(grid, rows) && f < |grid|
    ensures grid[f].row < |rows| && grid[f].col < |rows[grid[f].row]| && rows[grid[f].row][grid[f].col] == f
  {
  }

  lemma RowNonempty(grid: seq<Cell>, rows: seq<seq<nat>>, r: nat)
    requires Laid(grid, rows) && r < |rows|
    ensures rows[r] != []
  {
  }

  lemma NearestInside(grid: seq<Cell>, rows: seq<seq<nat>>, r: nat, col: nat)
    requires Laid(grid, rows) && r < |rows|
    ensures rows[r] != [] && Nearest(rows, r, col) < |grid|
    ensures grid[Nearest(rows, r, col)].row == r && grid[Nearest(rows, r, col)].col == Min(col, |rows[r]| - 1)
  {
    RowNonempty(grid, rows, r);
    CellAt(grid, rows, r, Min(col, |rows[r]| - 1));
  }

  /** Where a key moves the focus. */
  ghost function Target(grid: seq<Cell>, rows: seq<seq<nat>>, f: nat, key: Key): (r: nat)
    requires Laid(grid, rows) && f < |grid|
    ensures r < |grid|
  {
    var cell := grid[f];
    var above, below := Prev(cell.row, |rows|), Next(cell.row, |rows|);
    NearestInside(grid, rows, above, LAST_COLUMN);
    NearestInside(grid, rows, above, cell.col);
    NearestInside(grid, rows, below, cell.col);
    if cell.el.slider then (if key == Enter then Next(f, |grid|) else f)
    else match key
      case ArrowRight => Next(f, |grid|)
      case ArrowLeft => if cell.col > 0 then f - 1 else Nearest(rows, above, LAST_COLUMN)
      case ArrowDown => Nearest(rows, below, cell.col)
      case ArrowUp => Nearest(rows, above, cell.col)
      case Enter => f
  }

  /** The row and column each key leads to. */
  ghost predicate Leads(grid: seq<Cell>, rows: seq<seq<nat>>, f: nat, key: Key, g: nat)
    requires Laid(grid, rows) && f < |grid| && g < |grid|
  {
    var cur, now := grid[f], grid[g];
    var above, below := (cur.row + |rows| - 1) % |rows|, (cur.row + 1) % |rows|;
    if cur.el.slider then
      g == if key == Enter then (f + 1) % |grid| else f
    else match key
      case ArrowRight =>
        if cur.col + 1 < |rows[cur.row]| then now.row == cur.row && now.col == cur.col + 1
        else now.row == below && now.col == 0
      case ArrowLeft =>
        if cur.col > 0 then now.row == cur.row && now.col == cur.col - 1
        else now.row == above && now.col == if |rows[above]| <= 999 then |rows[above]| - 1 else 999
      case ArrowDown =>
        now.row == below && now.col == if cur.col < |rows[below]| then cur.col else |rows[below]| - 1
      case ArrowUp =>
        now.row == above && now.col == if cur.col < |rows[above]| then cur.col else |rows[above]| - 1
      case Enter => g == f
  }

  lemma TargetCell(grid: seq<Cell>, rows: seq<seq<nat>>, f: nat, key: Key)
    requires Laid(grid, rows) && f < |grid|
    ensures Leads(grid, rows, f, key, Target(grid, rows, f, key))
  {
    PlaceOf(grid, rows, f);
    var cur := grid[f];
    var above, below := Prev(cur.row, |rows|), Next(cur.row, |rows|);
    NearestInside(grid, rows, above, LAST_COLUMN);
    NearestInside(grid, rows, above, cur.col);
    NearestInside(grid, rows, below, cur.col);
    if cur.col + 1 < |rows[cur.row]| {
      RowMiddle(grid, rows, f);
    } else {
      RowEnd(grid, rows, f);
    }
    if cur.col > 0 {
      PlaceAt(grid, rows, cur.row, cur.col - 1);
      PlaceAt(grid, rows, cur.row, cur.col);
      CellAt(grid, rows, cur.row, cur.col - 1);
    }
  }

  /** Inside a row the next element is the next flat index. */
  lemma RowMiddle(grid: seq<Cell>, rows: seq<seq<nat>>, f: nat)
    requires Laid(grid, rows) && f < |grid| && grid[f].col < |rows[grid[f].row]| - 1
    ensures f + 1 < |grid| && rows[grid[f].row][grid[f].col + 1] == f + 1
    ensures grid[f + 1].row == grid[f].row && grid[f + 1].col == grid[f].col + 1
  {
    var cell := grid[f];
    PlaceAt(grid, rows, cell.row, cell.col + 1);
    PlaceAt(grid, rows, cell.row, cell.col);
    CellAt(grid, rows, cell.row, cell.col + 1);
  }

  lemma RowHasNoRepeats(grid: seq<Cell>, rows: seq<seq<nat>>, r: nat, c: int, d: nat)
    requires Laid(grid, rows) && r < |rows| && d < |rows[r]|
    requires 0 <= c ==> c < |rows[r]| && rows[r][c] == rows[r][d]
    requires c < 0 ==> rows[r][d] !in rows[r]
    ensures c == d
  {
    if c < 0 {
      assert false;
    }
    PlaceAt(grid, rows, r, c);
    PlaceAt(grid, rows, r, d);
  }

  lemma PlaceAt(grid: seq<Cell>, rows: seq<seq<nat>>, r: nat, c: nat)
    requires Laid(grid, rows) && r < |rows| && c < |rows[r]|
    ensures rows[r][c] == Start(rows, r) + c
  {
  }

  /** From the end of a row the next element, going round, begins the next row. */
  lemma RowEnd(grid: seq<Cell>, rows: seq<seq<nat>>, f: nat)
    requires Laid(grid, rows) && f < |grid| && grid[f].col == |rows[grid[f].row]| - 1
    ensures rows[Next(grid[f].row, |rows|)] != [] && rows[Next(grid[f].row, |rows|)][0] == Next(f, |grid|)
    ensures grid[Next(f, |grid|)].row == Next(grid[f].row, |rows|) && grid[Next(f, |grid|)].col == 0
  {
    var r := grid[f].row;
    var n := Next(r, |rows|);
    RowNonempty(grid, rows, n);
    PlaceAt(grid, rows, n, 0);
    PlaceAt(grid, rows, r, grid[f].col);
    PlaceOf(grid, rows, f);
    CellAt(grid, rows, n, 0);
    GridSize(grid, rows);
    assert Start(rows, r + 1) == f + 1;
    if r + 1 < |rows| {
      StartMonotone(rows, r + 1, |rows|);
    }
  }

  lemma GridSize(grid: seq<Cell>, rows: seq<seq<nat>>)
    requires Laid(grid, rows)
    ensures |grid| == Start(rows, |rows|)
  {
  }

  class NavigationManager {
    var grid: seq<Cell>
    var rows: seq<seq<nat>>
    var focusIndex: int

    ghost predicate Valid()
      reads this
    {
      Laid(grid, rows) && 0 <= focusIndex && (grid != [] ==> focusIndex < |grid|)
    }

    constructor ()
      ensures Valid() && grid == []
    {
      grid, rows, focusIndex := [], [], 0;
    }

    /** `refresh`, given the visible focusable elements. */
    method Refresh(els: seq<Element>) returns (ghost visual: seq<seq<Element>>, ghost anchors: seq<real>)
      requires Valid()
      modifies this
      ensures Valid()
      ensures els == [] ==> grid == old(grid) && rows == old(rows) && focusIndex == old(focusIndex)
      ensures els != [] ==>
        && multiset(Flatten(visual)) == multiset(els) && Rows(visual, anchors)
        && (forall r :: 0 <= r < |visual| ==> SortedBy(ByLeft, visual[r]))
        && ReadsInOrder(visual, anchors)
        && Shows(grid, rows, visual)
        && focusIndex == if old(focusIndex) < |els| then old(focusIndex) else 0
    {
      hide Laid, Rows, Flatten, SortedBy, ReadsInOrder, Sort;
      visual, anchors := [], [];
      if els == [] {
        return;
      }
      var sorted := Sort(ByTopThenLeft, els);
      var raw, tops := GroupRows(sorted);
      var sortedRows := SortRows(raw, tops);
      RowsReadInOrder(raw, sortedRows, tops);
      RowsNonempty(sortedRows, tops);
      grid, rows := BuildGrid(sortedRows);
      visual, anchors := sortedRows, tops;
      ShownSize(grid, rows, visual);
      assert |multiset(Flatten(visual))| == |Flatten(visual)| && |multiset(els)| == |els|;
      if focusIndex >= |grid| {
        focusIndex := 0;
      }
    }

    /** `_closestInRow`: the first of the nearest elements, or -1 when there is no such row. */
    method ClosestInRow(targetRow: int, targetCol: nat) returns (best: int)
      requires Valid()
      ensures 0 <= targetRow < |rows| ==> best == Nearest(rows, targetRow, targetCol)
      ensures 0 <= targetRow < |rows| ==>
        && 0 <= best < |grid| && grid[best].row == targetRow
        && grid[best].col == if targetCol < |rows[targetRow]| then targetCol else |rows[targetRow]| - 1
      ensures !(0 <= targetRow < |rows|) ==> best == -1
    {
      if !(0 <= targetRow < |rows|) || |rows[targetRow]| == 0 {
        return -1;
      }
      var candidates := rows[targetRow];
      best := candidates[0];
      var bestDist: int := -1; // stands for infinity
      for k := 0 to |candidates|
        invariant bestDist == -1 <==> k == 0
        invariant k == 0 ==> best == candidates[0]
        invariant k > 0 ==> best == candidates[Min(targetCol, k - 1)]
        invariant k > 0 ==> bestDist == Distance(Min(targetCol, k - 1), targetCol)
      {
        CellAt(grid, rows, targetRow, k);
        var dist := Distance(grid[candidates[k]].col, targetCol);
        if bestDist == -1 || dist < bestDist {
          best, bestDist := candidates[k], dist;
        }
      }
      NearestInside(grid, rows, targetRow, targetCol);
    }

    /** `row.indexOf(focusIndex)`. */
    method IndexOf(row: seq<nat>, i: int) returns (k: int)
      ensures 0 <= k ==> k < |row| && row[k] == i && i !in row[..k]
      ensures k < 0 ==> k == -1 && i !in row
    {
      for j := 0 to |row|
        invariant i !in row[..j]
      {
        if row[j] == i {
          return j;
        }
      }
      return -1;
    }

    /** The arrow and Enter cases of `_onKey` and `_handleSliderKey`. */
    method OnKey(key: Key)
      requires Valid()
      modifies this`focusIndex
      ensures Valid()
      ensures grid != [] ==> focusIndex == Target(grid, rows, old(focusIndex), key)
      ensures grid == [] ==> focusIndex == old(focusIndex)
      ensures grid != [] ==> Leads(grid, rows, old(focusIndex), key, focusIndex)
    {
      if |grid| == 0 {
        return;
      }
      TargetCell(grid, rows, focusIndex, key);
      hide Leads, Nearest, Start;
      var cur := grid[focusIndex];
      hide Laid;
      PlaceOf(grid, rows, focusIndex);
      if cur.el.slider {
        if key == Enter {
          focusIndex := Next(focusIndex, |grid|);
        }
        return;
      }
      var row := rows[cur.row];
      assert row[cur.col] == focusIndex;
      var colIdx := IndexOf(row, focusIndex);
      RowHasNoRepeats(grid, rows, cur.row, colIdx, cur.col);
      RowNonempty(grid, rows, Next(cur.row, |rows|));
      match key {
        case ArrowRight =>
          if colIdx < |row| - 1 {
            RowMiddle(grid, rows, focusIndex);
            focusIndex := row[colIdx + 1];
          } else {
            RowEnd(grid, rows, focusIndex);
            focusIndex := ClosestInRow(Next(cur.row, |rows|), 0);
          }
        case ArrowLeft =>
          if colIdx > 0 {
            PlaceAt(grid, rows, cur.row, cur.col - 1);
            PlaceAt(grid, rows, cur.row, cur.col);
            focusIndex := row[colIdx - 1];
          } else {
            focusIndex := ClosestInRow(Prev(cur.row, |rows|), LAST_COLUMN);
          }
        case ArrowDown => focusIndex := ClosestInRow(Next(cur.row, |rows|), cur.col);
        case ArrowUp => focusIndex := ClosestInRow(Prev(cur.row, |rows|), cur.col);
        case Enter =>
      }
      assert focusIndex == Target(grid, rows, old(focusIndex), key);
    }
  }

  function Distance(a: nat, b: nat): nat {
    if a < b then b - a else a - b
  }

  /** The grid shows the visual rows, cell by cell. */
  ghost predicate Shows(grid: seq<Cell>, rows: seq<seq<nat>>, visual: seq<seq<Element>>) {
    && Laid(grid, rows) && |rows| == |visual|
    && (forall r :: 0 <= r < |rows| ==> |rows[r]| == |visual[r]|)
    && (forall i :: 0 <= i < |grid| ==>
        grid[i].row < |visual| && grid[i].col < |visual[grid[i].row]| && grid[i].el == visual[grid[i].row][grid[i].col])
  }

  lemma {:induction false} StartIsFlatLength(rows: seq<seq<nat>>, visual: seq<seq<Element>>, r: nat)
    requires r <= |rows| == |visual| && forall k :: 0 <= k < |rows| ==> |rows[k]| == |visual[k]|
    ensures Start(rows, r) == |Flatten(visual[..r])|
    decreases r
  {
    if r > 0 {
      StartIsFlatLength(rows, visual, r - 1);
      assert visual[..r][..r - 1] == visual[..r - 1];
    }
  }

  lemma ShownSize(grid: seq<Cell>, rows: seq<seq<nat>>, visual: seq<seq<Element>>)
    requires Shows(grid, rows, visual)
    ensures |grid| == |Flatten(visual)|
  {
    StartIsFlatLength(rows, visual, |rows|);
    assert visual[..|visual|] == visual;
  }

  lemma {:induction false} StartPrefix(a: seq<seq<nat>>, b: seq<seq<nat>>, r: nat)
    requires r <= |a| && r <= |b| && forall k :: 0 <= k < r ==> |a[k]| == |b[k]|
    ensures Start(a, r) == Start(b, r)
    decreases r
  {
    if r > 0 {
      StartPrefix(a, b, r - 1);
    }
  }

  /** One more row of cells keeps the grid laid out. */
  lemma ShowsMore(grid: seq<Cell>, rows: seq<seq<nat>>, visual: seq<seq<Element>>, row: seq<Element>,
                  cells: seq<Cell>, flat: seq<nat>)
    requires Shows(grid, rows, visual) && row != [] && |cells| == |flat| == |row|
    requires forall c :: 0 <= c < |row| ==> cells[c] == Cell(row[c], |rows|, c) && flat[c] == |grid| + c
    ensures Shows(grid + cells, rows + [flat], visual + [row])
  {
    var longer := rows + [flat];
    forall r | 0 <= r <= |rows|
      ensures Start(longer, r) == Start(rows, r)
    {
      StartPrefix(longer, rows, r);
    }
    assert Start(longer, |longer|) == Start(longer, |rows|) + |flat|;
  }

  /** The nested loops that assign rows, columns and flat indices. */
  method BuildGrid(visual: seq<seq<Element>>) returns (grid: seq<Cell>, rows: seq<seq<nat>>)
    requires forall r :: 0 <= r < |visual| ==> visual[r] != []
    ensures Shows(grid, rows, visual)
  {
    hide Laid;
    grid, rows := [], [];
    NothingShown();
    for r := 0 to |visual|
      invariant |rows| == r && Shows(grid, rows, visual[..r])
    {
      ghost var before := grid;
      var flat;
      ghost var cells;
      grid, flat, cells := BuildRow(grid, visual[r], r);
      ShowsMore(before, rows, visual[..r], visual[r], cells, flat);
      assert visual[..r + 1] == visual[..r] + [visual[r]];
      rows := rows + [flat];
    }
    assert visual[..|visual|] == visual;
  }

  lemma NothingShown()
    ensures Shows([], [], [])
  {
  }

  /** The inner loop: one row's cells and their flat indices. */
  method BuildRow(grid0: seq<Cell>, row: seq<Element>, r: nat)
    returns (grid: seq<Cell>, flat: seq<nat>, ghost cells: seq<Cell>)
    ensures |flat| == |cells| == |row| && grid == grid0 + cells
    ensures forall c :: 0 <= c < |row| ==> cells[c] == Cell(row[c], r, c) && flat[c] == |grid0| + c
  {
    grid, flat, cells := grid0, [], [];
    for c := 0 to |row|
      invariant |flat| == |cells| == c && grid == grid0 + cells
      invariant forall k :: 0 <= k < c ==> cells[k] == Cell(row[k], r, k) && flat[k] == |grid0| + k
    {
      var flatIdx := |grid|;
      grid := grid + [Cell(row[c], r, c)];
      cells := cells + [Cell(row[c], r, c)];
      flat := flat + [flatIdx];
    }
  }

  // ---------------------------------------------------------------------------
  // Laws of movement

  /** The last element of a row lies at column 1000 or beyond, out of Left's reach. */
  predicate BeyondReach(grid: seq<Cell>, rows: seq<seq<nat>>, f: nat)
    requires f < |grid| && grid[f].row < |rows|
  {
    grid[f].col == |rows[grid[f].row]| - 1 && grid[f].col > LAST_COLUMN
  }

  /** What Right and then Left do to the focus. */
  ghost function RightThenLeft(grid: seq<Cell>, rows: seq<seq<nat>>, f: nat): nat
    requires Laid(grid, rows) && f < |grid|
  {
    Target(grid, rows, Target(grid, rows, f, ArrowRight), ArrowLeft)
  }

  /** Between elements that are not sliders, only the end of a row of more than 1000 is lost. */
  lemma LeftFromNext(grid: seq<Cell>, rows: seq<seq<nat>>, f: nat)
    requires Laid(grid, rows) && f < |grid| && !grid[f].el.slider && !grid[Next(f, |grid|)].el.slider
    ensures RightThenLeft(grid, rows, f) == f <==> !BeyondReach(grid, rows, f)
  {
    hide Laid;
    PlaceOf(grid, rows, f);
    var r := grid[f].row;
    if grid[f].col == |rows[r]| - 1 {
      RowEnd(grid, rows, f);
      assert Prev(Next(r, |rows|), |rows|) == r;
      NearestInside(grid, rows, r, LAST_COLUMN);
    } else {
      RowMiddle(grid, rows, f);
    }
  }

  /**
   * Left takes back Right at f exactly when f is a slider (neither key moves the focus), or is
   * alone, or is followed by something that is no slider and does not end a row too long for Left.
   */
  lemma LeftTakesBackRight(grid: seq<Cell>, rows: seq<seq<nat>>, f: nat)
    requires Laid(grid, rows) && f < |grid|
    ensures grid[f].row < |rows|
    ensures RightThenLeft(grid, rows, f) == f <==>
      || grid[f].el.slider
      || |grid| == 1
      || (!grid[Next(f, |grid|)].el.slider && !BeyondReach(grid, rows, f))
  {
    PlaceOf(grid, rows, f);
    if !grid[f].el.slider {
      if !grid[Next(f, |grid|)].el.slider {
        LeftFromNext(grid, rows, f);
        if |grid| == 1 {
          OnlyRow(grid, rows);
        }
      }
    }
  }

  lemma OnlyRow(grid: seq<Cell>, rows: seq<seq<nat>>)
    requires Laid(grid, rows) && |grid| == 1
    ensures grid[0].col == 0 && !BeyondReach(grid, rows, 0)
  {
    PlaceOf(grid, rows, 0);
  }

  predicate NoSliderAfterPlain(grid: seq<Cell>) {
    forall f :: 0 <= f < |grid| && !grid[f].el.slider ==> !grid[Next(f, |grid|)].el.slider
  }

  /** Going round, one plain element never followed by a slider makes all elements plain. */
  lemma {:induction false} PlainAllRound(grid: seq<Cell>, f: nat, n: nat)
    requires f < |grid| && !grid[f].el.slider && NoSliderAfterPlain(grid)
    ensures !grid[(f + n) % |grid|].el.slider
    decreases n
  {
    if n == 0 {
      ModUnique(f, |grid|, 0, f);
    } else {
      PlainAllRound(grid, f, n - 1);
      NextIsModular(f + n - 1, |grid|);
    }
  }

  lemma AllPlain(grid: seq<Cell>, f: nat, g: nat)
    requires f < |grid| && g < |grid| && !grid[f].el.slider && NoSliderAfterPlain(grid)
    ensures !grid[g].el.slider
  {
    if f <= g {
      PlainAllRound(grid, f, g - f);
      ModUnique(g, |grid|, 0, g);
    } else {
      PlainAllRound(grid, f, g + |grid| - f);
      ModUnique(g + |grid|, |grid|, 1, g);
    }
  }

  /**
   * So Left is the inverse of Right everywhere exactly when there is at most one element, or only
   * sliders, or no slider and no row of more than 1000 elements.
   */
  lemma LeftInverseOfRight(grid: seq<Cell>, rows: seq<seq<nat>>)
    requires Laid(grid, rows)
    ensures
      (forall f :: 0 <= f < |grid| ==> RightThenLeft(grid, rows, f) == f) <==>
      || |grid| <= 1
      || (forall f :: 0 <= f < |grid| ==> grid[f].el.slider)
      || ((forall f :: 0 <= f < |grid| ==> !grid[f].el.slider) &&
          (forall r :: 0 <= r < |rows| ==> |rows[r]| <= LAST_COLUMN + 1))
  {
    hide Laid, RightThenLeft;
    forall f | 0 <= f < |grid|
      ensures grid[f].row < |rows| && grid[f].col < |rows[grid[f].row]|
      ensures RightThenLeft(grid, rows, f) == f <==>
        grid[f].el.slider || |grid| == 1 || (!grid[Next(f, |grid|)].el.slider && !BeyondReach(grid, rows, f))
    {
      PlaceOf(grid, rows, f);
      LeftTakesBackRight(grid, rows, f);
    }
    if forall f :: 0 <= f < |grid| ==> RightThenLeft(grid, rows, f) == f {
      if |grid| > 1 {
        if p :| 0 <= p < |grid| && !grid[p].el.slider {
          assert NoSliderAfterPlain(grid);
          forall g | 0 <= g < |grid|
            ensures !grid[g].el.slider
          {
            AllPlain(grid, p, g);
          }
          ShortRows(grid, rows);
        }
      }
    }
  }

  lemma ShortRows(grid: seq<Cell>, rows: seq<seq<nat>>)
    requires Laid(grid, rows)
    requires forall f :: 0 <= f < |grid| ==> grid[f].row < |rows| && !BeyondReach(grid, rows, f)
    ensures forall r :: 0 <= r < |rows| ==> |rows[r]| <= LAST_COLUMN + 1
  {
    forall r | 0 <= r < |rows|
      ensures |rows[r]| <= LAST_COLUMN + 1
    {
      RowNonempty(grid, rows, r);
      CellAt(grid, rows, r, |rows[r]| - 1);
      assert !BeyondReach(grid, rows, rows[r][|rows[r]| - 1]);
    }
  }

  /** A plain element, then a slider: Right lands on the slider, and Left stays there. */
  lemma SliderKeepsLeft() returns (grid: seq<Cell>, rows: seq<seq<nat>>)
    ensures Laid(grid, rows) && |grid| == 2 && !grid[0].el.slider && grid[1].el.slider
    ensures RightThenLeft(grid, rows, 0) == 1
  {
    grid := [Cell(Element(0, 0.0, 0.0, false), 0, 0), Cell(Element(1, 0.0, 50.0, true), 0, 1)];
    rows := [[0, 1]];
    assert Start(rows, 1) == Start(rows, 0) + |rows[0]|;
  }

  /**
   * Up takes back Down exactly when the focus is on a slider, or Down reaches no slider and the
   * row below reaches as far as the column left.
   */
  lemma UpTakesBackDown(grid: seq<Cell>, rows: seq<seq<nat>>, f: nat)
    requires Laid(grid, rows) && f < |grid|
    ensures grid[f].row < |rows|
    ensures
      Target(grid, rows, Target(grid, rows, f, ArrowDown), ArrowUp) == f <==>
        || grid[f].el.slider
        || (!grid[Target(grid, rows, f, ArrowDown)].el.slider && grid[f].col < |rows[Next(grid[f].row, |rows|)]|)
  {
    hide Laid;
    PlaceOf(grid, rows, f);
    var r, col := grid[f].row, grid[f].col;
    var n := Next(r, |rows|);
    NearestInside(grid, rows, n, col);
    assert Prev(n, |rows|) == r;
    var c := Min(col, |rows[n]| - 1);
    NearestInside(grid, rows, r, c);
  }

  /** Two plain elements above one: Down from the second comes to the only one, and Up to the first. */
  lemma ShortRowLosesColumn() returns (grid: seq<Cell>, rows: seq<seq<nat>>)
    ensures Laid(grid, rows) && |grid| == 3 && forall i :: 0 <= i < 3 ==> !grid[i].el.slider
    ensures Target(grid, rows, 1, ArrowDown) == 2 && Target(grid, rows, 2, ArrowUp) == 0
  {
    grid := [Cell(Element(0, 0.0, 0.0, false), 0, 0), Cell(Element(1, 0.0, 50.0, false), 0, 1),
             Cell(Element(2, 30.0, 0.0, false), 1, 0)];
    rows := [[0, 1], [2]];
    assert Start(rows, 1) == Start(rows, 0) + |rows[0]|;
    assert Start(rows, 2) == Start(rows, 1) + |rows[1]|;
  }

  /** The key that steps on: Enter leaves a slider, Right leaves anything else. */
  function StepKey(el: Element): Key {
    if el.slider then Enter else ArrowRight
  }

  ghost function StepOn(grid: seq<Cell>, rows: seq<seq<nat>>, f: nat, n: nat): (r: nat)
    requires Laid(grid, rows) && f < |grid|
    ensures r < |grid|
    decreases n
  {
    if n == 0 then f
    else
      var g := StepOn(grid, rows, f, n - 1);
      Target(grid, rows, g, StepKey(grid[g].el))
  }

  /** Stepping on n times moves n places round the whole grid, so every element can be reached. */
  lemma {:induction false} StepsGoRound(grid: seq<Cell>, rows: seq<seq<nat>>, f: nat, n: nat)
    requires Laid(grid, rows) && f < |grid|
    ensures StepOn(grid, rows, f, n) == (f + n) % |grid|
    decreases n
  {
    hide Laid;
    if n > 0 {
      StepsGoRound(grid, rows, f, n - 1);
      NextIsModular(f + n - 1, |grid|);
    } else {
      ModUnique(f, |grid|, 0, f);
    }
  }

  lemma NextIsModular(a: nat, m: nat)
    requires m > 0
    ensures Next(a % m, m) == (a + 1) % m
  {
    var q, r := a / m, a % m;
    assert a == q * m + r;
    if r + 1 < m {
      ModUnique(a + 1, m, q, r + 1);
    } else {
      assert (q + 1) * m == q * m + m;
      ModUnique(a + 1, m, q + 1, 0);
    }
  }
}

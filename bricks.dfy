/** The brick field: the grid laid out at start, and the sequence
    operations the collision step uses to delete bricks from it.
    Live bricks are kept in canvas stacking order, i.e. creation order. */
module Bricks {
  import opened Geometry

  const COLUMNS := 8
  const BRICK_WIDTH := 50
  const BRICK_HEIGHT := 25

  /** The brick in column i and row j. */
  function BrickBox(i: int, j: int): Box
  {
    Box(BRICK_WIDTH * i, BRICK_HEIGHT * j, BRICK_WIDTH * i + BRICK_WIDTH, BRICK_HEIGHT * j + BRICK_HEIGHT)
  }

  /** Column i, rows 0 .. rows-1 top to bottom (the inner loop of the layout). */
  function Column(i: int, rows: int): seq<Box>
    decreases rows
  {
    if rows <= 0 then [] else Column(i, rows - 1) + [BrickBox(i, rows - 1)]
  }

  /** Columns 0 .. cols-1, left to right (the outer loop of the layout). */
  function GridUpTo(cols: int, rows: int): seq<Box>
    decreases cols
  {
    if cols <= 0 then [] else GridUpTo(cols - 1, rows) + Column(cols - 1, rows)
  }

  /** The full brick field of a game with `rows` rows. */
  function Grid(rows: int): seq<Box>
  {
    GridUpTo(COLUMNS, rows)
  }

  function Max0(n: int): nat
  {
    if n < 0 then 0 else n
  }

  /** The brick at (i, j) for some column i < cols and row j < rows. */
  ghost predicate InGridUpTo(b: Box, cols: int, rows: int)
  {
    exists i, j :: 0 <= i < cols && 0 <= j < rows && b == BrickBox(i, j)
  }

  predicate NoDup(s: seq<Box>)
  {
    forall p, q :: 0 <= p < q < |s| ==> s[p] != s[q]
  }

  function Elems(s: seq<Box>): set<Box>
  {
    set x | x in s
  }

  /** The bricks of s whose box is not in d, in their order. */
  function FilterOut(s: seq<Box>, d: set<Box>): seq<Box>
  {
    if s == [] then []
    else (if s[0] in d then [] else [s[0]]) + FilterOut(s[1..], d)
  }

  /** The bricks of s that overlap the ball, in their order. */
  function Hits(s: seq<Box>, ball: Box): seq<Box>
  {
    if s == [] then []
    else (if Overlaps(s[0], ball) then [s[0]] else []) + Hits(s[1..], ball)
  }

  /** The bricks of s that do not overlap the ball, in their order. */
  function Remaining(s: seq<Box>, ball: Box): seq<Box>
  {
    if s == [] then []
    else (if Overlaps(s[0], ball) then [] else [s[0]]) + Remaining(s[1..], ball)
  }

  // ---------------------------------------------------------------------
  // The grid

  /** Column i holds max(rows, 0) bricks, the j-th of them at row j. */
  lemma {:induction false} ColumnShape(i: int, rows: int)
    ensures |Column(i, rows)| == Max0(rows)
    ensures forall j :: 0 <= j < |Column(i, rows)| ==> Column(i, rows)[j] == BrickBox(i, j)
    decreases rows
  {
    if rows > 0 {
      ColumnShape(i, rows - 1);
    }
  }

  /** A column holds exactly its own bricks. */
  lemma ColumnMembers(i: int, rows: int, b: Box)
    ensures b in Column(i, rows) <==> exists j :: 0 <= j < rows && b == BrickBox(i, j)
  {
    ColumnShape(i, rows);
    var c := Column(i, rows);
    if b in c {
      var k :| 0 <= k < |c| && c[k] == b;
      assert 0 <= k < rows && b == BrickBox(i, k);
    }
    if exists j :: 0 <= j < rows && b == BrickBox(i, j) {
      var j :| 0 <= j < rows && b == BrickBox(i, j);
      assert c[j] == b;
    }
  }

  /** Every brick of the first `cols` columns is some (i, j) with i < cols, j < rows. */
  lemma {:induction false} GridUpToSound(cols: int, rows: int, b: Box) returns (i: int, j: int)
    requires b in GridUpTo(cols, rows)
    ensures 0 <= i < cols && 0 <= j < rows && b == BrickBox(i, j)
    decreases cols
  {
    var left, col := GridUpTo(cols - 1, rows), Column(cols - 1, rows);
    assert GridUpTo(cols, rows) == left + col;
    if b in left {
      i, j := GridUpToSound(cols - 1, rows, b);
    } else {
      assert b in col;
      ColumnShape(cols - 1, rows);
      var k :| 0 <= k < |col| && col[k] == b;
      i, j := cols - 1, k;
    }
  }

  /** Every (i, j) with 0 <= i < cols and 0 <= j < rows is a brick of the first `cols` columns. */
  lemma {:induction false} GridUpToComplete(cols: int, rows: int, i: int, j: int)
    requires 0 <= i < cols && 0 <= j < rows
    ensures BrickBox(i, j) in GridUpTo(cols, rows)
    decreases cols
  {
    var left, col := GridUpTo(cols - 1, rows), Column(cols - 1, rows);
    assert GridUpTo(cols, rows) == left + col;
    if i < cols - 1 {
      GridUpToComplete(cols - 1, rows, i, j);
    } else {
      ColumnShape(cols - 1, rows);
      assert col[j] == BrickBox(i, j);
    }
  }

  /** The first `cols` columns hold exactly the bricks (i, j) with i < cols, j < rows. */
  lemma GridUpToMembers(cols: int, rows: int, b: Box)
    ensures b in GridUpTo(cols, rows) <==> InGridUpTo(b, cols, rows)
  {
    if b in GridUpTo(cols, rows) {
      var i, j := GridUpToSound(cols, rows, b);
    }
    if InGridUpTo(b, cols, rows) {
      var i, j :| 0 <= i < cols && 0 <= j < rows && b == BrickBox(i, j);
      GridUpToComplete(cols, rows, i, j);
    }
  }

  /** The grid is exactly the 8 x rows boxes (50i, 25j, 50i+50, 25j+25). */
  lemma GridMembers(rows: int, b: Box)
    ensures b in Grid(rows) <==> exists i, j :: 0 <= i < COLUMNS && 0 <= j < rows && b == BrickBox(i, j)
  {
    GridUpToMembers(COLUMNS, rows, b);
  }

  /** The first `cols` columns hold cols * max(rows, 0) bricks. */
  lemma {:induction false} GridUpToSize(cols: nat, rows: int)
    ensures |GridUpTo(cols, rows)| == cols * Max0(rows)
  {
    if cols > 0 {
      GridUpToSize(cols - 1, rows);
      ColumnShape(cols - 1, rows);
    }
  }

  /** A game with `rows` rows has 8 * rows bricks (none when rows is negative). */
  lemma GridSize(rows: int)
    ensures |Grid(rows)| == COLUMNS * Max0(rows)
  {
    GridUpToSize(COLUMNS, rows);
  }

  lemma NoDupAppend(a: seq<Box>, b: seq<Box>)
    requires NoDup(a) && NoDup(b)
    requires forall x :: x in a ==> x !in b
    ensures NoDup(a + b)
  {
    var s := a + b;
    forall p, q | 0 <= p < q < |s|
      ensures s[p] != s[q]
    {
      if p < |a| && |a| <= q {
        assert s[p] in a && s[q] == b[q - |a|];
      }
    }
  }

  /** No brick of the grid appears twice. */
  lemma {:induction false} GridUpToNoDup(cols: int, rows: int)
    ensures NoDup(GridUpTo(cols, rows))
    decreases cols
  {
    if cols > 0 {
      var left, col := GridUpTo(cols - 1, rows), Column(cols - 1, rows);
      GridUpToNoDup(cols - 1, rows);
      ColumnShape(cols - 1, rows);
      forall x | x in left
        ensures x !in col
      {
        var i, j := GridUpToSound(cols - 1, rows, x);
        ColumnMembers(cols - 1, rows, x);
        assert x.x0 < BRICK_WIDTH * (cols - 1);
      }
      NoDupAppend(left, col);
    }
  }

  lemma GridNoDup(rows: int)
    ensures NoDup(Grid(rows))
  {
    GridUpToNoDup(COLUMNS, rows);
  }

  // ---------------------------------------------------------------------
  // Deleting bricks

  /** FilterOut keeps exactly the members of s outside d. */
  lemma {:induction false} FilterOutMembers(s: seq<Box>, d: set<Box>, x: Box)
    ensures x in FilterOut(s, d) <==> x in s && x !in d
  {
    if s != [] {
      FilterOutMembers(s[1..], d, x);
      assert s == [s[0]] + s[1..];
    }
  }

  lemma {:induction false} FilterOutNothing(s: seq<Box>)
    ensures FilterOut(s, {}) == s
  {
    if s != [] {
      FilterOutNothing(s[1..]);
    }
  }

  lemma {:induction false} FilterOutShorter(s: seq<Box>, d: set<Box>)
    ensures |FilterOut(s, d)| <= |s|
  {
    if s != [] {
      FilterOutShorter(s[1..], d);
    }
  }

  /** The first entry of a duplicate-free sequence is not repeated in its tail. */
  lemma NoDupTail(s: seq<Box>)
    requires NoDup(s) && s != []
    ensures s[0] !in s[1..] && NoDup(s[1..])
  {
    var rest := s[1..];
    forall k | 0 <= k < |rest|
      ensures rest[k] != s[0]
    {
      assert rest[k] == s[k + 1];
    }
    forall p, q | 0 <= p < q < |rest|
      ensures rest[p] != rest[q]
    {
      assert rest[p] == s[p + 1] && rest[q] == s[q + 1];
    }
  }

  /** Deleting never introduces a duplicate. */
  lemma {:induction false} FilterOutNoDup(s: seq<Box>, d: set<Box>)
    requires NoDup(s)
    ensures NoDup(FilterOut(s, d))
  {
    if s != [] {
      var rest := s[1..];
      NoDupTail(s);
      FilterOutNoDup(rest, d);
      FilterOutMembers(rest, d, s[0]);
      NoDupAppend(if s[0] in d then [] else [s[0]], FilterOut(rest, d));
    }
  }

  /** Deleting one set of boxes and then another is deleting their union:
      the per-item deletions of a tick add up. */
  lemma {:induction false} FilterOutTwice(s: seq<Box>, a: set<Box>, b: set<Box>)
    ensures FilterOut(FilterOut(s, a), b) == FilterOut(s, a + b)
  {
    if s != [] {
      FilterOutTwice(s[1..], a, b);
      var t := FilterOut(s, a);
      if s[0] in a {
        assert t == FilterOut(s[1..], a);
      } else {
        assert t == [s[0]] + FilterOut(s[1..], a);
        assert t[0] == s[0] && t[1..] == FilterOut(s[1..], a);
        assert FilterOut(t, b) == (if s[0] in b then [] else [s[0]]) + FilterOut(t[1..], b);
      }
    }
  }

  /** Deleting the boxes that overlap the ball leaves the non-overlapping ones. */
  lemma {:induction false} FilterOutOverlapping(s: seq<Box>, d: set<Box>, ball: Box)
    requires forall x :: x in s ==> (x in d <==> Overlaps(x, ball))
    ensures FilterOut(s, d) == Remaining(s, ball)
  {
    if s != [] {
      assert forall x :: x in s[1..] ==> x in s;
      FilterOutOverlapping(s[1..], d, ball);
    }
  }

  /** Every brick either overlaps the ball or does not. */
  lemma {:induction false} HitsRemainingSplit(s: seq<Box>, ball: Box)
    ensures |Hits(s, ball)| + |Remaining(s, ball)| == |s|
  {
    if s != [] {
      HitsRemainingSplit(s[1..], ball);
    }
  }

  lemma {:induction false} HitsMembers(s: seq<Box>, ball: Box, x: Box)
    ensures x in Hits(s, ball) <==> x in s && Overlaps(x, ball)
  {
    if s != [] {
      HitsMembers(s[1..], ball, x);
      assert s == [s[0]] + s[1..];
    }
  }

  /** No brick overlaps the ball exactly when the hit list is empty. */
  lemma {:induction false} HitsEmpty(s: seq<Box>, ball: Box)
    ensures Hits(s, ball) == [] <==> forall x :: x in s ==> !Overlaps(x, ball)
  {
    if s != [] {
      HitsEmpty(s[1..], ball);
      assert s == [s[0]] + s[1..];
    }
  }

  // ---------------------------------------------------------------------
  // Counting destroyed bricks

  lemma ElemsCons(s: seq<Box>)
    requires s != []
    ensures Elems(s) == {s[0]} + Elems(s[1..])
  {
    assert s == [s[0]] + s[1..];
  }

  /** A duplicate-free sequence has as many distinct elements as entries. */
  lemma {:induction false} NoDupElems(s: seq<Box>)
    requires NoDup(s)
    ensures |Elems(s)| == |s|
  {
    if s != [] {
      var rest := s[1..];
      NoDupTail(s);
      NoDupElems(rest);
      ElemsCons(s);
    }
  }

  /** The members of s in d: its head if in d, and those of its tail. */
  lemma ElemsMeetCons(s: seq<Box>, d: set<Box>)
    requires s != []
    ensures Elems(s) * d == (if s[0] in d then {s[0]} else {}) + Elems(s[1..]) * d
  {
    ElemsCons(s);
  }

  /** Deleting d from a duplicate-free s removes exactly the members of s in d. */
  lemma {:induction false} FilterOutSize(s: seq<Box>, d: set<Box>)
    requires NoDup(s)
    ensures |FilterOut(s, d)| == |s| - |Elems(s) * d|
  {
    if s != [] {
      var rest := s[1..];
      NoDupTail(s);
      FilterOutSize(rest, d);
      ElemsMeetCons(s, d);
      var e := Elems(rest) * d;
      assert s[0] !in e;
      if s[0] in d {
        assert |FilterOut(s, d)| == |FilterOut(rest, d)|;
        assert |e + {s[0]}| == |e| + 1;
      } else {
        assert |FilterOut(s, d)| == 1 + |FilterOut(rest, d)|;
      }
    }
  }

  /** The grid bricks that are no longer live. */
  function Destroyed(rows: int, live: seq<Box>): seq<Box>
  {
    FilterOut(Grid(rows), Elems(live))
  }

  /** When the live bricks are distinct grid bricks, the number of destroyed
      grid bricks is the grid size less the number of live ones. */
  lemma DestroyedCount(rows: int, live: seq<Box>)
    requires NoDup(live)
    requires forall b :: b in live ==> b in Grid(rows)
    ensures |Destroyed(rows, live)| == |Grid(rows)| - |live|
  {
    GridNoDup(rows);
    FilterOutSize(Grid(rows), Elems(live));
    assert Elems(Grid(rows)) * Elems(live) == Elems(live);
    NoDupElems(live);
  }
}

/** The difference of two boards (`get_diff_with_board`) and its application on the client
    (`update_tile_diff`). Positions travel in one byte each, so a board may be at most 256 by 256. */
module Diffs {
  import opened Board
  import opened Changes

  /** `tile_diff`: two uint8_t coordinates and the numeric value of the new tile. */
  datatype TileDiff = TileDiff(x: byte, y: byte, tile: int)

  /** A board as the bytes the client stores. */
  function Codes(g: seq<Tile>): (r: seq<int>)
    ensures |r| == |g| && forall n :: 0 <= n < |g| ==> r[n] == Code(g[n])
  {
    seq(|g|, n requires 0 <= n < |g| => Code(g[n]))
  }

  lemma CodesDiffer(a: Tile, b: Tile)
    ensures Code(a) == Code(b) <==> a == b
  {
  }

  function DiffAt(w: nat, cur: seq<Tile>, n: nat): TileDiff
    requires 0 < w && n < |cur|
  {
    TileDiff(CoordOf(w, n).x % 256, CoordOf(w, n).y % 256, Code(cur[n]))
  }

  /** The differences among the first n cells, in the order of the grid. */
  function Diff(w: nat, cur: seq<Tile>, prev: seq<Tile>, n: nat): (d: seq<TileDiff>)
    requires 0 < w && n <= |cur| == |prev|
    ensures |d| <= n
  {
    if n == 0 then []
    else Diff(w, cur, prev, n - 1) + if cur[n - 1] != prev[n - 1] then [DiffAt(w, cur, n - 1)] else []
  }

  /** The cell a record addresses on a board of width w. */
  function Position(w: nat, d: TileDiff): int {
    (d.y as int) * w + d.x as int
  }

  predicate Fits(w: nat, size: nat, d: seq<TileDiff>) {
    forall k :: 0 <= k < |d| ==> 0 <= Position(w, d[k]) < size
  }

  function Patch(w: nat, g: seq<int>, d: seq<TileDiff>): (r: seq<int>)
    requires Fits(w, |g|, d)
    ensures |r| == |g|
  {
    if d == [] then g
    else Patch(w, g, d[..|d| - 1])[Position(w, d[|d| - 1]) := d[|d| - 1].tile]
  }

  /** A record addresses the cell it was made for. */
  lemma PositionOfDiff(w: nat, h: nat, cur: seq<Tile>, n: nat)
    requires 0 < w <= 256 && h <= 256 && |cur| == w * h && n < |cur|
    ensures Position(w, DiffAt(w, cur, n)) == n
  {
    CoordOfInside(w, h, n);
    assert n == (n / w) * w + n % w;
  }

  /** Row-major and without repetition: the records address differing cells, in increasing order, and
      carry the new tile. */
  predicate Ordered(w: nat, cur: seq<Tile>, prev: seq<Tile>, d: seq<TileDiff>, n: nat)
    requires n <= |cur| == |prev|
  {
    && (forall k :: 0 <= k < |d| ==> 0 <= Position(w, d[k]) < n)
    && (forall k :: 0 <= k < |d| ==> var p := Position(w, d[k]); cur[p] != prev[p] && d[k].tile == Code(cur[p]))
    && (forall j, k :: 0 <= j < k < |d| ==> Position(w, d[j]) < Position(w, d[k]))
  }

  lemma OrderedSnoc(w: nat, cur: seq<Tile>, prev: seq<Tile>, d: seq<TileDiff>, n: nat, e: TileDiff)
    requires n < |cur| == |prev| && Ordered(w, cur, prev, d, n)
    requires Position(w, e) == n && cur[n] != prev[n] && e.tile == Code(cur[n])
    ensures Ordered(w, cur, prev, d + [e], n + 1)
  {
    var r := d + [e];
    forall k | 0 <= k < |r|
      ensures Position(w, r[k]) == if k < |d| then Position(w, d[k]) else n
    {
    }
  }

  lemma {:induction false} DiffOrdered(w: nat, h: nat, cur: seq<Tile>, prev: seq<Tile>, n: nat)
    requires 0 < w <= 256 && h <= 256 && |cur| == w * h == |prev| && n <= |cur|
    ensures Ordered(w, cur, prev, Diff(w, cur, prev, n), n)
  {
    if n > 0 {
      DiffOrdered(w, h, cur, prev, n - 1);
      if cur[n - 1] != prev[n - 1] {
        PositionOfDiff(w, h, cur, n - 1);
        OrderedSnoc(w, cur, prev, Diff(w, cur, prev, n - 1), n - 1, DiffAt(w, cur, n - 1));
      }
    }
  }

  /** Each record gives column, row and new tile of a cell in which the boards differ. */
  lemma {:induction false} DiffRecord(w: nat, h: nat, cur: seq<Tile>, prev: seq<Tile>, n: nat, k: nat)
    requires 0 < w <= 256 && h <= 256 && |cur| == w * h == |prev| && n <= |cur| && k < |Diff(w, cur, prev, n)|
    ensures var d := Diff(w, cur, prev, n)[k];
      && (d.x as int) < w && (d.y as int) < h
      && var c := Index(w, h, Coord(d.x, d.y)); cur[c] != prev[c] && d.tile == Code(cur[c])
  {
    if k < |Diff(w, cur, prev, n - 1)| {
      DiffRecord(w, h, cur, prev, n - 1, k);
    } else {
      CoordOfInside(w, h, n - 1);
      SmallCoord(w, h, n - 1);
    }
  }

  lemma SmallCoord(w: nat, h: nat, n: nat)
    requires 0 < w <= 256 && h <= 256 && n < w * h
    ensures CoordOf(w, n).x % 256 == CoordOf(w, n).x && CoordOf(w, n).y % 256 == CoordOf(w, n).y
  {
    CoordOfInside(w, h, n);
  }

  lemma PatchSnoc(w: nat, g: seq<int>, d: seq<TileDiff>, e: TileDiff)
    requires Fits(w, |g|, d) && 0 <= Position(w, e) < |g|
    ensures Fits(w, |g|, d + [e]) && Patch(w, g, d + [e]) == Patch(w, g, d)[Position(w, e) := e.tile]
  {
    assert (d + [e])[..|d|] == d;
  }

  /** The first n entries of one sequence, then the rest of the other. */
  function Mix(a: seq<int>, b: seq<int>, n: nat): seq<int>
    requires n <= |a| == |b|
  {
    a[..n] + b[n..]
  }

  lemma MixStep(a: seq<int>, b: seq<int>, n: nat)
    requires 0 < n <= |a| == |b|
    ensures Mix(a, b, n - 1)[n - 1 := a[n - 1]] == Mix(a, b, n)
    ensures a[n - 1] == b[n - 1] ==> Mix(a, b, n - 1) == Mix(a, b, n)
  {
  }

  /** Patching with the differences of the first n cells brings exactly those cells up to date. */
  lemma {:induction false} PatchDiff(w: nat, h: nat, cur: seq<Tile>, prev: seq<Tile>, n: nat)
    requires 0 < w <= 256 && h <= 256 && |cur| == w * h == |prev| && n <= |cur|
    ensures Fits(w, |cur|, Diff(w, cur, prev, n))
    ensures Patch(w, Codes(prev), Diff(w, cur, prev, n)) == Mix(Codes(cur), Codes(prev), n)
  {
    if n == 0 {
      assert Mix(Codes(cur), Codes(prev), 0) == Codes(prev);
    } else {
      PatchDiff(w, h, cur, prev, n - 1);
      PatchDiffStep(w, h, cur, prev, n, Diff(w, cur, prev, n - 1));
    }
  }

  lemma PatchDiffStep(w: nat, h: nat, cur: seq<Tile>, prev: seq<Tile>, n: nat, d: seq<TileDiff>)
    requires 0 < w <= 256 && h <= 256 && |cur| == w * h == |prev| && 0 < n <= |cur|
    requires Fits(w, |cur|, d) && Patch(w, Codes(prev), d) == Mix(Codes(cur), Codes(prev), n - 1)
    ensures var next := d + if cur[n - 1] != prev[n - 1] then [DiffAt(w, cur, n - 1)] else [];
      Fits(w, |cur|, next) && Patch(w, Codes(prev), next) == Mix(Codes(cur), Codes(prev), n)
  {
    MixStep(Codes(cur), Codes(prev), n);
    if cur[n - 1] != prev[n - 1] {
      PositionOfDiff(w, h, cur, n - 1);
      PatchSnoc(w, Codes(prev), d, DiffAt(w, cur, n - 1));
    } else {
      assert d + [] == d;
    }
  }

  /** The diff has one record per differing cell, so it is as short as possible and empty only for equal boards. */
  lemma DiffMinimal(w: nat, cur: seq<Tile>, prev: seq<Tile>)
    requires 0 < w && |cur| == |prev|
    ensures |Diff(w, cur, prev, |cur|)| == |Changed(prev, cur)|
    ensures Diff(w, cur, prev, |cur|) == [] <==> cur == prev
  {
    DiffCounts(w, cur, prev, |cur|);
    assert Changed(prev, cur) == set m: nat | m < |cur| && prev[m] != cur[m];
    if Changed(prev, cur) == {} {
      forall m | 0 <= m < |cur|
        ensures cur[m] == prev[m]
      {
        assert m !in Changed(prev, cur);
      }
    }
  }

  lemma {:induction false} DiffCounts(w: nat, cur: seq<Tile>, prev: seq<Tile>, n: nat)
    requires 0 < w && n <= |cur| == |prev|
    ensures |Diff(w, cur, prev, n)| == |set m: nat | m < n && prev[m] != cur[m]|
  {
    if n > 0 {
      DiffCounts(w, cur, prev, n - 1);
      CountStep(cur, prev, n);
    }
  }

  lemma CountStep(cur: seq<Tile>, prev: seq<Tile>, n: nat)
    requires 0 < n <= |cur| == |prev|
    ensures |set m: nat | m < n && prev[m] != cur[m]|
         == |set m: nat | m < n - 1 && prev[m] != cur[m]| + if cur[n - 1] != prev[n - 1] then 1 else 0
  {
    var before, now := (set m: nat | m < n - 1 && prev[m] != cur[m]), (set m: nat | m < n && prev[m] != cur[m]);
    assert now == before + if cur[n - 1] != prev[n - 1] then {n - 1} else {};
  }

  /** Every beginning of the diff is the diff of some beginning of the board; a proper one stops short
      of a differing cell. */
  lemma {:induction false} DiffPrefix(w: nat, cur: seq<Tile>, prev: seq<Tile>, n: nat, k: nat) returns (m: nat)
    requires 0 < w && n <= |cur| == |prev| && k < |Diff(w, cur, prev, n)|
    ensures m < n && cur[m] != prev[m] && Diff(w, cur, prev, m) == Diff(w, cur, prev, n)[..k]
  {
    var d0 := Diff(w, cur, prev, n - 1);
    if k < |d0| {
      m := DiffPrefix(w, cur, prev, n - 1, k);
    } else {
      m := n - 1;
    }
  }

  /** Only the first k records arrive: the client's board is right exactly when none was left out. */
  lemma PatchPrefixExact(w: nat, h: nat, cur: seq<Tile>, prev: seq<Tile>, k: nat)
    requires 0 < w <= 256 && h <= 256 && |cur| == w * h == |prev| && k <= |Diff(w, cur, prev, |cur|)|
    ensures var d := Diff(w, cur, prev, |cur|);
      && Fits(w, |cur|, d[..k])
      && (Patch(w, Codes(prev), d[..k]) == Codes(cur) <==> k == |d|)
  {
    var d := Diff(w, cur, prev, |cur|);
    PatchDiff(w, h, cur, prev, |cur|);
    if k == |d| {
      assert d[..k] == d;
    } else {
      var m := DiffPrefix(w, cur, prev, |cur|, k);
      PatchDiff(w, h, cur, prev, m);
      CodesDiffer(cur[m], prev[m]);
      assert Patch(w, Codes(prev), d[..k])[m] == Code(prev[m]);
    }
  }

  /** `get_diff_with_board` */
  method GetDiffWithBoard(w: nat, cur: array<Tile>, prev: array<Tile>) returns (diffs: array<TileDiff>)
    requires 0 < w && cur.Length == prev.Length
    ensures diffs[..] == Diff(w, cur[..], prev[..], cur.Length)
  {
    var all := new TileDiff[cur.Length](_ => TileDiff(0, 0, 0));
    var count := 0;
    for i := 0 to cur.Length
      invariant count <= i
      invariant all[..count] == Diff(w, cur[..], prev[..], i)
    {
      if cur[i] != prev[i] {
        var c := CoordOf(w, i);
        all[count] := TileDiff(c.x % 256, c.y % 256, Code(cur[i]));
        count := count + 1;
      }
    }
    diffs := new TileDiff[count](k requires 0 <= k < count <= all.Length reads all => all[k]);
    assert diffs[..] == all[..count];
  }
}

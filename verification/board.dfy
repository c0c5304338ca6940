/** Tiles, coordinates and the flat grid they index (src/model.h, src/model.c). */
module Board {

  const PLAYER_NUM := 4

  type byte = n: int | 0 <= n < 256

  // The TILE enumeration; `Code` gives its numeric value.
  datatype Tile =
    | Empty | IndestructibleWall | DestructibleWall | Bomb | Explosion
    | Player1 | Player2 | Player3 | Player4
    | VerticalBorder | HorizontalBorder

  function Code(t: Tile): (n: int)
    ensures 0 <= n <= 10
  {
    match t
    case Empty => 0
    case IndestructibleWall => 1
    case DestructibleWall => 2
    case Bomb => 3
    case Explosion => 4
    case Player1 => 5
    case Player2 => 6
    case Player3 => 7
    case Player4 => 8
    case VerticalBorder => 9
    case HorizontalBorder => 10
  }

  predicate IsWall(t: Tile) {
    t.IndestructibleWall? || t.DestructibleWall?
  }

  predicate IsPlayer(t: Tile) {
    t.Player1? || t.Player2? || t.Player3? || t.Player4?
  }

  function PlayerTile(id: int): Tile {
    match id
    case 0 => Player1
    case 1 => Player2
    case 2 => Player3
    case 3 => Player4
    case _ => Empty
  }

  function PlayerId(t: Tile): (id: int)
    ensures IsPlayer(t) ==> 0 <= id < PLAYER_NUM && PlayerTile(id) == t
    ensures !IsPlayer(t) ==> id == -1
  {
    match t
    case Player1 => 0
    case Player2 => 1
    case Player3 => 2
    case Player4 => 3
    case _ => -1
  }

  datatype Coord = Coord(x: int, y: int)

  function Offset(c: Coord, dx: int, dy: int): Coord {
    Coord(c.x + dx, c.y + dy)
  }

  /** One step along one axis. */
  predicate IsDirection(dx: int, dy: int) {
    (dx == 0 && (dy == 1 || dy == -1)) || (dy == 0 && (dx == 1 || dx == -1))
  }

  predicate Inside(w: nat, h: nat, c: Coord) {
    0 <= c.x < w && 0 <= c.y < h
  }

  /** `int_to_coord`: the cell stored at a flat index. */
  function CoordOf(w: nat, n: nat): (c: Coord)
    requires 0 < w
    ensures 0 <= c.x < w && 0 <= c.y
  {
    Coord(n % w, n / w)
  }

  /** `coord_to_int`: a legal flat index, undone by `CoordOf`. */
  function Index(w: nat, h: nat, c: Coord): (n: nat)
    requires Inside(w, h, c)
    ensures n < w * h
    ensures CoordOf(w, n) == c
  {
    IndexInRange(w, h, c.x, c.y);
    QuotientUnique(c.y * w + c.x, w, c.y, c.x);
    c.y * w + c.x
  }

  lemma IndexInRange(w: nat, h: nat, x: nat, y: nat)
    requires x < w && y < h
    ensures 0 <= y * w + x < w * h
  {
    assert (h - 1 - y) * w >= 0;
    assert h * w == (h - 1 - y) * w + y * w + w;
  }

  lemma MulMonotone(a: int, b: int, w: int)
    requires a <= b && 0 <= w
    ensures a * w <= b * w
  {
    assert (b - a) * w >= 0;
  }

  lemma QuotientUnique(n: int, w: int, q: int, r: int)
    requires 0 < w && 0 <= r < w
    requires n == q * w + r
    ensures n / w == q && n % w == r
  {
    var d := n / w - q;
    assert d * w == r - n % w by {
      assert n == (n / w) * w + n % w;
      assert d * w == (n / w) * w - q * w;
    }
    if d > 0 {
      MulMonotone(1, d, w);
    } else if d < 0 {
      MulMonotone(d, -1, w);
    }
  }

  /** Every flat index is the index of exactly one cell of the board. */
  lemma CoordOfInside(w: nat, h: nat, n: nat)
    requires n < w * h
    ensures 0 < w
    ensures Inside(w, h, CoordOf(w, n))
    ensures Index(w, h, CoordOf(w, n)) == n
  {
    assert n == (n / w) * w + n % w;
    if n / w >= h {
      MulMonotone(h, n / w, w);
    }
  }
}

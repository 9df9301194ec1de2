/**
 * The fixed GRID_MAX_X x GRID_MAX_Y grid of tiles and the read-only neighbour predicates of the
 * generator: count_bordering_rooms, map_room_all_same_neighbours, is_valid_secret_neighbours and
 * is_valid_super_secret_neighbour. The source reads the four neighbours of a tile without bounds
 * checks, so every predicate here asks for a tile whose four neighbours lie on the grid.
 */
module Grid {
  import opened Tiles

  const GridMaxX: int := 32
  const GridMaxY: int := 32

  /** The starting room: the tile under the world position of the grid centre. */
  const Centre: Pos := Pos(GridMaxX / 2, GridMaxY / 2)

  const AllDirs: set<Dir> := {Up, Right, Bottom, Left}

  /** The position of a direction in the order up, right, bottom, left of the neighbour scans. */
  function Rank(d: Dir): int {
    match d
    case Up => 0
    case Right => 1
    case Bottom => 2
    case Left => 3
  }

  predicate WellFormed(tiles: array2<Tile>) {
    tiles.Length0 == GridMaxX && tiles.Length1 == GridMaxY
  }

  predicate InGrid(p: Pos) {
    0 <= p.x < GridMaxX && 0 <= p.y < GridMaxY
  }

  /** A tile whose four neighbours are on the grid. */
  predicate Interior(p: Pos) {
    1 <= p.x < GridMaxX - 1 && 1 <= p.y < GridMaxY - 1
  }

  /** Manhattan distance from the starting room. */
  function Dist(p: Pos): nat {
    Abs(p.x - Centre.x) + Abs(p.y - Centre.y)
  }

  /** Every neighbour of an interior tile is on the grid. */
  lemma InteriorNeighbours(p: Pos)
    requires Interior(p)
    ensures forall d :: InGrid(Step(p, d))
  {
    forall d ensures InGrid(Step(p, d)) {
      match d
      case Up =>
      case Right =>
      case Bottom =>
      case Left =>
    }
  }

  /** A step changes the distance from the centre by at most one. */
  lemma StepDist(p: Pos, d: Dir)
    ensures Dist(Step(p, d)) <= Dist(p) + 1
  {
  }

  /** Tiles close to the centre are interior, and so are their neighbours. */
  lemma NearCentre(p: Pos)
    requires Dist(p) <= 14
    ensures Interior(p) && forall d :: InGrid(Step(p, d))
  {
    InteriorNeighbours(p);
  }

  /** The contents of the grid at one moment, as a value. */
  ghost function Snapshot(tiles: array2<Tile>): (g: map<Pos, Tile>)
    reads tiles
    requires WellFormed(tiles)
    ensures forall q :: q in g <==> InGrid(q)
    ensures forall q :: InGrid(q) ==> g[q] == tiles[q.x, q.y]
  {
    var cells := set x, y | 0 <= x < GridMaxX && 0 <= y < GridMaxY :: Pos(x, y);
    assert forall q :: InGrid(q) ==> q in cells by {
      forall q | InGrid(q)
        ensures q in cells
      {
        assert q == Pos(q.x, q.y);
      }
    }
    map q | q in cells :: tiles[q.x, q.y]
  }

  function At(tiles: array2<Tile>, p: Pos): Tile
    reads tiles
    requires WellFormed(tiles) && InGrid(p)
  {
    tiles[p.x, p.y]
  }

  function KindAt(tiles: array2<Tile>, p: Pos): RoomType
    reads tiles
    requires WellFormed(tiles) && InGrid(p)
  {
    tiles[p.x, p.y].kind
  }

  /** A cell of the grid that holds a room of any type. */
  predicate Occupied(tiles: array2<Tile>, p: Pos)
    reads tiles
    requires WellFormed(tiles)
  {
    InGrid(p) && KindAt(tiles, p) != Empty
  }

  /** The directions in which `p` has a neighbouring room. */
  ghost function OccupiedDirs(tiles: array2<Tile>, p: Pos): set<Dir>
    reads tiles
    requires WellFormed(tiles) && Interior(p)
  {
    InteriorNeighbours(p);
    set d | d in AllDirs && KindAt(tiles, Step(p, d)) != Empty
  }

  /** The directions in which the neighbour of `p` is ROOM_NONE. */
  ghost function EmptyDirs(tiles: array2<Tile>, p: Pos): set<Dir>
    reads tiles
    requires WellFormed(tiles) && Interior(p)
  {
    InteriorNeighbours(p);
    set d | d in AllDirs && KindAt(tiles, Step(p, d)) == Empty
  }

  /** The size of a set of directions is the number of directions it contains. */
  lemma {:induction false} DirSetCard(s: set<Dir>)
    ensures |s| == Ind(Up in s) + Ind(Right in s) + Ind(Bottom in s) + Ind(Left in s)
    decreases |s|
  {
    if s != {} {
      var d :| d in s;
      var rest := s - {d};
      DirSetCard(rest);
      assert |s| == |rest| + 1;
      assert forall e :: e != d ==> (e in s <==> e in rest);
      assert d !in rest;
    }
  }

  /**
   * count_bordering_rooms: start from 4 and subtract one for every ROOM_NONE neighbour. The result
   * is the number of neighbouring rooms, whether or not a door leads to them.
   */
  function CountBorderingRooms(tiles: array2<Tile>, p: Pos): (r: int)
    reads tiles
    requires WellFormed(tiles) && Interior(p)
    ensures 0 <= r <= 4
  {
    InteriorNeighbours(p);
    var counter := 4;
    var counter := if KindAt(tiles, Step(p, Up)) == Empty then counter - 1 else counter;
    var counter := if KindAt(tiles, Step(p, Right)) == Empty then counter - 1 else counter;
    var counter := if KindAt(tiles, Step(p, Bottom)) == Empty then counter - 1 else counter;
    var counter := if KindAt(tiles, Step(p, Left)) == Empty then counter - 1 else counter;
    counter
  }

  /** The count is four minus the empty neighbours, which is the number of neighbouring rooms. */
  lemma BorderingRoomsCount(tiles: array2<Tile>, p: Pos)
    requires WellFormed(tiles) && Interior(p)
    ensures CountBorderingRooms(tiles, p) == 4 - |EmptyDirs(tiles, p)|
    ensures CountBorderingRooms(tiles, p) == |OccupiedDirs(tiles, p)|
  {
    InteriorNeighbours(p);
    DirSetCard(EmptyDirs(tiles, p));
    DirSetCard(OccupiedDirs(tiles, p));
  }

  /** With at most one bordering room, every neighbour other than the one in direction `d` is empty. */
  lemma SingleBorder(tiles: array2<Tile>, p: Pos, d: Dir)
    requires WellFormed(tiles) && Interior(p)
    requires CountBorderingRooms(tiles, p) <= 1
    requires KindAt(tiles, Step(p, d)) != Empty
    ensures OccupiedDirs(tiles, p) == {d}
    ensures forall e :: e != d ==> KindAt(tiles, Step(p, e)) == Empty
  {
    InteriorNeighbours(p);
    BorderingRoomsCount(tiles, p);
    var occ := OccupiedDirs(tiles, p);
    DirSetCard(occ);
    assert d in occ;
    assert forall e :: e != d ==> e !in occ;
    assert occ == {d};
  }

  /**
   * The intent of map_room_all_same_neighbours: at least two neighbouring rooms, all of one type,
   * and that type is not ROOM_NORMAL.
   */
  ghost predicate AllSameNeighbours(tiles: array2<Tile>, p: Pos)
    reads tiles
    requires WellFormed(tiles) && Interior(p)
  {
    InteriorNeighbours(p);
    var u, r, b, l := KindAt(tiles, Step(p, Up)), KindAt(tiles, Step(p, Right)),
      KindAt(tiles, Step(p, Bottom)), KindAt(tiles, Step(p, Left));
    var t := if u != Empty then u else if r != Empty then r else if b != Empty then b else l;
    CountBorderingRooms(tiles, p) >= 2 && t != Normal &&
    (u == Empty || u == t) && (r == Empty || r == t) && (b == Empty || b == t) && (l == Empty || l == t)
  }

  /** AllSameNeighbours, stated over the set of directions that lead to a room. */
  lemma AllSameNeighboursMeaning(tiles: array2<Tile>, p: Pos)
    requires WellFormed(tiles) && Interior(p)
    ensures (InteriorNeighbours(p); var occ := OccupiedDirs(tiles, p);
      AllSameNeighbours(tiles, p) <==>
        |occ| >= 2 &&
        (forall d, e :: d in occ && e in occ ==> KindAt(tiles, Step(p, d)) == KindAt(tiles, Step(p, e))) &&
        (forall d :: d in occ ==> KindAt(tiles, Step(p, d)) != Normal))
  {
    InteriorNeighbours(p);
    BorderingRoomsCount(tiles, p);
  }

  /** The intent of is_valid_super_secret_neighbour: every neighbouring room is ROOM_NORMAL. */
  ghost predicate OnlyNormalNeighbours(tiles: array2<Tile>, p: Pos)
    reads tiles
    requires WellFormed(tiles) && Interior(p)
  {
    InteriorNeighbours(p);
    forall d :: d in OccupiedDirs(tiles, p) ==> KindAt(tiles, Step(p, d)) == Normal
  }

  /**
   * `types` lists the types of the neighbours of `p` in the directions `dirs`, and `dirs` holds
   * exactly those of the first `n` directions (in the order up, right, bottom, left) that lead
   * to a room.
   */
  ghost predicate Gathered(tiles: array2<Tile>, p: Pos, types: seq<RoomType>, dirs: seq<Dir>, n: int)
    reads tiles
    requires WellFormed(tiles) && Interior(p)
  {
    InteriorNeighbours(p);
    |types| == |dirs| &&
    (forall k :: 0 <= k < |types| ==> types[k] == KindAt(tiles, Step(p, dirs[k]))) &&
    (forall d :: d in dirs <==> Rank(d) < n && KindAt(tiles, Step(p, d)) != Empty)
  }

  /**
   * Gathers the types of the occupied neighbours of `p`, in the order up, right, bottom, left, as
   * the local `type[]` buffer of the two neighbour predicates of the source; `dirs` records where
   * each one came from.
   */
  method CollectNeighbourTypes(tiles: array2<Tile>, p: Pos) returns (types: seq<RoomType>, ghost dirs: seq<Dir>)
    requires WellFormed(tiles) && Interior(p)
    ensures Gathered(tiles, p, types, dirs, 4)
    ensures |types| == CountBorderingRooms(tiles, p)
  {
    types, dirs := [], [];
    types, dirs := GatherNeighbour(tiles, p, Up, types, dirs);
    types, dirs := GatherNeighbour(tiles, p, Right, types, dirs);
    types, dirs := GatherNeighbour(tiles, p, Bottom, types, dirs);
    types, dirs := GatherNeighbour(tiles, p, Left, types, dirs);
  }

  /** One `if` block of the gathering: append the type in direction `d` when it is a room. */
  method GatherNeighbour(tiles: array2<Tile>, p: Pos, d: Dir, types: seq<RoomType>, ghost dirs: seq<Dir>)
    returns (types': seq<RoomType>, ghost dirs': seq<Dir>)
    requires WellFormed(tiles) && Interior(p)
    requires Gathered(tiles, p, types, dirs, Rank(d))
    ensures Gathered(tiles, p, types', dirs', Rank(d) + 1)
    ensures |dirs'| == |dirs| + Ind(KindAt(tiles, Step(p, d)) != Empty)
  {
    InteriorNeighbours(p);
    if KindAt(tiles, Step(p, d)) != Empty {
      types', dirs' := types + [KindAt(tiles, Step(p, d))], dirs + [d];
    } else {
      types', dirs' := types, dirs;
    }
  }

  /** All gathered types are `t` exactly when every neighbouring room has type `t`. */
  lemma GatheredAllOfType(tiles: array2<Tile>, p: Pos, types: seq<RoomType>, dirs: seq<Dir>, t: RoomType)
    requires WellFormed(tiles) && Interior(p) && Gathered(tiles, p, types, dirs, 4)
    ensures (forall k :: 0 <= k < |types| ==> types[k] == t) <==>
      (forall d :: d in OccupiedDirs(tiles, p) ==> KindAt(tiles, Step(p, d)) == t)
  {
    InteriorNeighbours(p);
    if forall k :: 0 <= k < |types| ==> types[k] == t {
      forall d | d in OccupiedDirs(tiles, p)
        ensures KindAt(tiles, Step(p, d)) == t
      {
        assert d in dirs;
        var k :| 0 <= k < |dirs| && dirs[k] == d;
      }
    }
  }

  /** map_room_all_same_neighbours, proved to decide AllSameNeighbours. */
  method RoomAllSameNeighbours(tiles: array2<Tile>, p: Pos) returns (same: bool)
    requires WellFormed(tiles) && Interior(p)
    ensures same == AllSameNeighbours(tiles, p)
  {
    var types, dirs := CollectNeighbourTypes(tiles, p);
    BorderingRoomsCount(tiles, p);
    var counter := |types|;
    if counter <= 1 {
      return false;
    }
    var isTypeSame := true;
    var oldType := types[0];
    for i := 0 to counter
      invariant isTypeSame <==> forall k :: 0 <= k < i ==> types[k] == oldType
    {
      if oldType != types[i] {
        isTypeSame := false;
      }
    }
    if oldType == Normal {
      isTypeSame := false;
    }
    same := isTypeSame;
    GatheredAllOfType(tiles, p, types, dirs, oldType);
    assert dirs[0] in OccupiedDirs(tiles, p);
    AllSameNeighboursMeaning(tiles, p);
  }

  /** is_valid_super_secret_neighbour, proved to decide OnlyNormalNeighbours. */
  method IsValidSuperSecretNeighbour(tiles: array2<Tile>, p: Pos) returns (ok: bool)
    requires WellFormed(tiles) && Interior(p)
    ensures ok == OnlyNormalNeighbours(tiles, p)
  {
    var types, dirs := CollectNeighbourTypes(tiles, p);
    var counter := |types|;
    var isTypeSame := true;
    var oldType := Normal;
    for i := 0 to counter
      invariant isTypeSame <==> forall k :: 0 <= k < i ==> types[k] == oldType
    {
      if oldType != types[i] {
        isTypeSame := false;
      }
    }
    ok := isTypeSame;
    GatheredAllOfType(tiles, p, types, dirs, Normal);
  }

  /**
   * is_valid_secret_neighbours: a secret room may open a door towards every room type except
   * ROOM_NONE, ROOM_BOSS and ROOM_SUPER_SECRET; in particular towards another ROOM_SECRET.
   */
  function IsValidSecretNeighbour(kind: RoomType): (ok: bool)
    ensures ok <==> kind in {Normal, Start, Shop, Item, Secret}
  {
    kind != Empty && kind != Boss && kind != SuperSecret
  }
}

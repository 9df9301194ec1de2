/** Room types, directions and the per-cell TILE record of the dungeon grid. */
module Tiles {

  /** ROOM_NONE, ROOM_NORMAL, ROOM_START, ROOM_BOSS, ROOM_SHOP, ROOM_ITEM, ROOM_SECRET, ROOM_SUPER_SECRET. */
  datatype RoomType = Empty | Normal | Start | Boss | Shop | Item | Secret | SuperSecret

  /** The four neighbour directions, in the order every scan of the generator visits them. */
  datatype Dir = Up | Right | Bottom | Left

  /** Grid coordinates (i, j) of a tile: `map[i][j]`. */
  datatype Pos = Pos(x: int, y: int)

  /** The neighbour of `p` in direction `d`: up is (i-1, j), right (i, j+1), bottom (i+1, j), left (i, j-1). */
  function Step(p: Pos, d: Dir): Pos {
    match d
    case Up => Pos(p.x - 1, p.y)
    case Right => Pos(p.x, p.y + 1)
    case Bottom => Pos(p.x + 1, p.y)
    case Left => Pos(p.x, p.y - 1)
  }

  /** The direction that leads back: the mirror of up is bottom, of right is left. */
  function Mirror(d: Dir): (m: Dir)
    ensures m != d
    ensures forall p :: Step(Step(p, d), m) == p
  {
    match d
    case Up => Bottom
    case Right => Left
    case Bottom => Up
    case Left => Right
  }

  /** Different directions have different mirrors. */
  lemma MirrorInjective()
    ensures forall a, b :: Mirror(a) == Mirror(b) ==> a == b
  {
  }

  function Abs(n: int): nat { if n < 0 then -n else n }

  /** Two cells are adjacent when they share an edge. */
  predicate Adjacent(a: Pos, b: Pos) {
    Abs(a.x - b.x) + Abs(a.y - b.y) == 1
  }

  /** Adjacency is exactly "one step in some direction". */
  lemma AdjacentIffStep(a: Pos, b: Pos)
    ensures Adjacent(a, b) <==> exists d :: Step(a, d) == b
  {
    if Adjacent(a, b) {
      if b.x == a.x - 1 {
        assert Step(a, Up) == b;
      } else if b.x == a.x + 1 {
        assert Step(a, Bottom) == b;
      } else if b.y == a.y + 1 {
        assert Step(a, Right) == b;
      } else {
        assert Step(a, Left) == b;
      }
    }
  }

  /** Different directions lead to different cells. */
  lemma StepInjective(p: Pos, d: Dir, e: Dir)
    ensures Step(p, d) == Step(p, e) <==> d == e
  {
  }

  /** The TILE record; the engine `pos` vector is represented by the grid coordinates posX/posY. */
  datatype Tile = Tile(
    id: int,
    posX: int,
    posY: int,
    kind: RoomType,
    secretChance: int,
    doors: int,
    up: bool,
    right: bool,
    bottom: bool,
    left: bool,
    secretDoors: int,
    secretUp: bool,
    secretRight: bool,
    secretBottom: bool,
    secretLeft: bool)

  /** The values map_reset_all gives the tile at (i, j). */
  function ResetTile(i: int, j: int): Tile {
    Tile(-1, i, j, Empty, 0, 0, false, false, false, false, 0, false, false, false, false)
  }

  /** The door flag of `t` towards `d`. */
  function Door(t: Tile, d: Dir): bool {
    match d
    case Up => t.up
    case Right => t.right
    case Bottom => t.bottom
    case Left => t.left
  }

  /** The secret door flag of `t` towards `d`. */
  function SecretDoor(t: Tile, d: Dir): bool {
    match d
    case Up => t.secretUp
    case Right => t.secretRight
    case Bottom => t.secretBottom
    case Left => t.secretLeft
  }

  function Ind(b: bool): nat { if b then 1 else 0 }

  /** How many door flags of `t` are set. */
  function DoorCount(t: Tile): nat {
    Ind(t.up) + Ind(t.right) + Ind(t.bottom) + Ind(t.left)
  }

  /** How many secret door flags of `t` are set. */
  function SecretDoorCount(t: Tile): nat {
    Ind(t.secretUp) + Ind(t.secretRight) + Ind(t.secretBottom) + Ind(t.secretLeft)
  }

  /** `flag = true; doors++` for direction `d` (the statement pairs of the growth and secret phases). */
  function WithDoor(t: Tile, d: Dir): (r: Tile)
    ensures Door(r, d) && r.doors == t.doors + 1
    ensures forall e :: e != d ==> Door(r, e) == Door(t, e)
    ensures r.kind == t.kind && r.id == t.id && r.posX == t.posX && r.posY == t.posY
    ensures r.secretChance == t.secretChance && r.secretDoors == t.secretDoors
    ensures forall e :: SecretDoor(r, e) == SecretDoor(t, e)
  {
    match d
    case Up => t.(up := true, doors := t.doors + 1)
    case Right => t.(right := true, doors := t.doors + 1)
    case Bottom => t.(bottom := true, doors := t.doors + 1)
    case Left => t.(left := true, doors := t.doors + 1)
  }

  /** `secret_flag = true; secret_doors++` for direction `d`. */
  function WithSecretDoor(t: Tile, d: Dir): (r: Tile)
    ensures SecretDoor(r, d) && r.secretDoors == t.secretDoors + 1
    ensures forall e :: e != d ==> SecretDoor(r, e) == SecretDoor(t, e)
    ensures r.kind == t.kind && r.id == t.id && r.posX == t.posX && r.posY == t.posY
    ensures r.secretChance == t.secretChance && r.doors == t.doors
    ensures forall e :: Door(r, e) == Door(t, e)
  {
    match d
    case Up => t.(secretUp := true, secretDoors := t.secretDoors + 1)
    case Right => t.(secretRight := true, secretDoors := t.secretDoors + 1)
    case Bottom => t.(secretBottom := true, secretDoors := t.secretDoors + 1)
    case Left => t.(secretLeft := true, secretDoors := t.secretDoors + 1)
  }

  /** The door pair of one neighbour check of a secret room: the flag and counter are set only when `open`. */
  function WithDoorIf(t: Tile, d: Dir, open: bool): Tile {
    if open then WithDoor(t, d) else t
  }

  /** Opening a closed door keeps `doors` equal to the number of set flags. */
  lemma OpenDoorKeepsCount(t: Tile, d: Dir)
    requires t.doors == DoorCount(t) && !Door(t, d)
    ensures WithDoor(t, d).doors == DoorCount(WithDoor(t, d))
  {
    match d
    case Up =>
    case Right =>
    case Bottom =>
    case Left =>
  }

  /** Opening a secret door that is closed keeps `secret_doors` equal to the number of set secret flags. */
  lemma OpenSecretDoorKeepsCount(t: Tile, d: Dir)
    requires t.secretDoors == SecretDoorCount(t) && !SecretDoor(t, d)
    ensures WithSecretDoor(t, d).secretDoors == SecretDoorCount(WithSecretDoor(t, d))
  {
    match d
    case Up =>
    case Right =>
    case Bottom =>
    case Left =>
  }

  /** Opening a door that is already open counts it twice: `doors` then exceeds the number of set flags. */
  lemma ReopenedDoorIsCountedTwice(t: Tile, d: Dir)
    requires t.doors == DoorCount(t) && Door(t, d)
    ensures WithDoor(t, d).doors == DoorCount(WithDoor(t, d)) + 1
  {
    match d
    case Up =>
    case Right =>
    case Bottom =>
    case Left =>
  }
}

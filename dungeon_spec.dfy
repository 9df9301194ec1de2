/**
 * What the phases of map_generate compute, stated over plain sequences of grid coordinates:
 * the random bounds, the secret-chance counts and candidate list, the item rooms, the boss
 * choice and the helpers for taking a bounded number of secret rooms.
 */
module DungeonSpec {
  import opened Options
  import opened Tiles
  import opened Lists
  import opened Grid

  /** level_id: the level being generated; the generator never changes it. */
  const LevelId: int := 1

  /** max_rooms = integer(random(3)) + 4 + level_id * 2, for a draw of 0, 1 or 2. */
  function MaxRooms(draw: int): (m: int)
    requires 0 <= draw < 3
    ensures 4 + 2 * LevelId <= m <= 6 + 2 * LevelId
  {
    draw + 4 + LevelId * 2
  }

  /** max_secrets = 1 + integer(random(2)), for a draw of 0 or 1. */
  function MaxSecrets(draw: int): (m: int)
    requires 0 <= draw < 2
    ensures 1 <= m <= 2
  {
    1 + draw
  }

  // ---------------------------------------------------------------- neighbour counts

  /** The number of rooms of `rooms` that share an edge with `q`. */
  function AdjacentRooms(q: Pos, rooms: seq<Pos>): nat
  {
    if rooms == [] then 0
    else AdjacentRooms(q, rooms[..|rooms| - 1]) + Ind(Adjacent(rooms[|rooms| - 1], q))
  }

  /** How many of the four neighbours of `q` are listed in `rooms`. */
  function ListedNeighbours(q: Pos, rooms: seq<Pos>): nat
  {
    Ind(Step(q, Up) in rooms) + Ind(Step(q, Right) in rooms) + Ind(Step(q, Bottom) in rooms) + Ind(Step(q, Left) in rooms)
  }

  /** `r` is a neighbour of `q` in exactly one direction when the two are adjacent, and in none otherwise. */
  lemma StepsToAdjacent(q: Pos, r: Pos)
    ensures Ind(Step(q, Up) == r) + Ind(Step(q, Right) == r) + Ind(Step(q, Bottom) == r) + Ind(Step(q, Left) == r)
         == Ind(Adjacent(r, q))
  {
  }

  /** Counting adjacent rooms one by one gives the number of listed neighbours, when no room is listed twice. */
  lemma {:induction false} AdjacentRoomsCountsNeighbours(q: Pos, rooms: seq<Pos>)
    requires NoDup(rooms)
    ensures AdjacentRooms(q, rooms) == ListedNeighbours(q, rooms)
  {
    if rooms != [] {
      var pre, r := rooms[..|rooms| - 1], rooms[|rooms| - 1];
      NoDupPrefix(rooms, |rooms| - 1);
      AdjacentRoomsCountsNeighbours(q, pre);
      assert r !in pre;
      assert forall s :: s in rooms <==> s in pre || s == r by {
        assert rooms == pre + [r];
      }
      StepsToAdjacent(q, r);
    }
  }

  /** Some room of `rooms` is adjacent to `q` exactly when the count is positive. */
  lemma {:induction false} AdjacentRoomsPositive(q: Pos, rooms: seq<Pos>)
    ensures AdjacentRooms(q, rooms) > 0 <==> exists k :: 0 <= k < |rooms| && Adjacent(rooms[k], q)
  {
    if rooms != [] {
      var pre := rooms[..|rooms| - 1];
      AdjacentRoomsPositive(q, pre);
      assert forall k :: 0 <= k < |pre| ==> rooms[k] == pre[k];
    }
  }

  /**
   * When the occupied cells of the grid are exactly the listed rooms, the number of adjacent
   * rooms of an interior cell is what count_bordering_rooms returns for it.
   */
  lemma AdjacentRoomsAreBordering(tiles: array2<Tile>, q: Pos, rooms: seq<Pos>)
    requires WellFormed(tiles) && Interior(q) && NoDup(rooms)
    requires forall r :: InGrid(r) ==> (KindAt(tiles, r) != Empty <==> r in rooms)
    ensures AdjacentRooms(q, rooms) == CountBorderingRooms(tiles, q)
  {
    InteriorNeighbours(q);
    AdjacentRoomsCountsNeighbours(q, rooms);
    var occ := OccupiedDirs(tiles, q);
    DirSetCard(occ);
    assert forall d :: d in occ <==> Step(q, d) in rooms;
  }

  // ---------------------------------------------------------------- secret positions

  /** The list update of map_calculate_secret_pos_chance for one cell: only a cell that is not a room is added. */
  function AddIfNotRoom(list: seq<Pos>, q: Pos, rooms: seq<Pos>): seq<Pos>
  {
    if q in rooms || q in list then list else list + [q]
  }

  /**
   * The effect of one `if` block of map_calculate_secret_pos_chance on the tile `t` at `n`: a
   * ROOM_NONE tile gains one secret chance.
   */
  function BumpCell(t: Tile): Tile {
    if t.kind == Empty then t.(secretChance := t.secretChance + 1) else t
  }

  /**
   * The effect of the same block on secret_position_list: is_valid_secret_pos accepts the
   * ROOM_NONE tile once its chance is positive and it is not listed yet.
   */
  function ListCell(list: seq<Pos>, t: Tile, n: Pos): seq<Pos> {
    if t.kind == Empty && t.secretChance + 1 > 0 && n !in list then list + [n] else list
  }

  /**
   * The tile `t` at `q` once map_calculate_secret_pos_chance has scanned the first `n` rooms:
   * a cell that is not a room has gained one secret chance per scanned room next to it.
   */
  function ChanceAfter(t: Tile, q: Pos, rooms: seq<Pos>, n: nat): Tile
    requires n <= |rooms|
  {
    if q in rooms then t else t.(secretChance := t.secretChance + AdjacentRooms(q, rooms[..n]))
  }

  /** Scanning one more room adds one chance exactly to the cells next to it that are not rooms. */
  lemma ChanceAfterStep(t: Tile, q: Pos, rooms: seq<Pos>, n: nat)
    requires n < |rooms|
    ensures var c := ChanceAfter(t, q, rooms, n);
      ChanceAfter(t, q, rooms, n + 1) ==
        if q !in rooms && Adjacent(rooms[n], q) then c.(secretChance := c.secretChance + 1) else c
  {
    var pre := rooms[..n + 1];
    assert pre[..|pre| - 1] == rooms[..n] && pre[|pre| - 1] == rooms[n];
    assert AdjacentRooms(q, pre) == AdjacentRooms(q, rooms[..n]) + Ind(Adjacent(rooms[n], q));
  }

  /** The list updates for `cells` in turn. */
  function AddAllIfNotRoom(list: seq<Pos>, cells: seq<Pos>, rooms: seq<Pos>): seq<Pos>
    decreases |cells|
  {
    if cells == [] then list else AddAllIfNotRoom(AddIfNotRoom(list, cells[0], rooms), cells[1..], rooms)
  }

  /** The cells appended are those of `cells` that are neither rooms nor listed, each once. */
  lemma {:induction false} AddAllMembers(list: seq<Pos>, cells: seq<Pos>, rooms: seq<Pos>)
    ensures NoDup(list) ==> NoDup(AddAllIfNotRoom(list, cells, rooms))
    ensures forall q :: q in AddAllIfNotRoom(list, cells, rooms) <==> q in list || (q in cells && q !in rooms)
    decreases |cells|
  {
    if cells != [] {
      AddAllMembers(AddIfNotRoom(list, cells[0], rooms), cells[1..], rooms);
      assert forall q :: q in cells <==> q == cells[0] || q in cells[1..];
    }
  }

  /** The list updates for the four neighbours of room `r`, in the order up, right, bottom, left. */
  function TouchNeighbours(list: seq<Pos>, r: Pos, rooms: seq<Pos>): seq<Pos>
  {
    AddAllIfNotRoom(list, [Step(r, Up), Step(r, Right), Step(r, Bottom), Step(r, Left)], rooms)
  }

  /** TouchNeighbours written out as its four updates. */
  lemma TouchNeighboursUnfold(list: seq<Pos>, r: Pos, rooms: seq<Pos>)
    ensures TouchNeighbours(list, r, rooms) ==
      AddIfNotRoom(AddIfNotRoom(AddIfNotRoom(AddIfNotRoom(list, Step(r, Up), rooms), Step(r, Right), rooms),
        Step(r, Bottom), rooms), Step(r, Left), rooms)
  {
    var c4 := [Step(r, Left)];
    var c3 := [Step(r, Bottom)] + c4;
    var c2 := [Step(r, Right)] + c3;
    var c1 := [Step(r, Up)] + c2;
    assert c1 == [Step(r, Up), Step(r, Right), Step(r, Bottom), Step(r, Left)];
    assert c4[1..] == [] && c3[1..] == c4 && c2[1..] == c3 && c1[1..] == c2;
    var l1 := AddIfNotRoom(list, Step(r, Up), rooms);
    var l2 := AddIfNotRoom(l1, Step(r, Right), rooms);
    var l3 := AddIfNotRoom(l2, Step(r, Bottom), rooms);
    var l4 := AddIfNotRoom(l3, Step(r, Left), rooms);
    assert AddAllIfNotRoom(l3, c4, rooms) == l4;
    assert AddAllIfNotRoom(l2, c3, rooms) == l4;
    assert AddAllIfNotRoom(l1, c2, rooms) == l4;
    assert AddAllIfNotRoom(list, c1, rooms) == l4;
  }

  /** secret_position_list once the first `n` rooms of the queue have been scanned. */
  function SecretCandidates(list: seq<Pos>, rooms: seq<Pos>, n: nat): seq<Pos>
    requires n <= |rooms|
  {
    if n == 0 then list else TouchNeighbours(SecretCandidates(list, rooms, n - 1), rooms[n - 1], rooms)
  }

  /** What touching the neighbours of one room adds to the candidate list. */
  lemma TouchNeighboursMembers(list: seq<Pos>, r: Pos, rooms: seq<Pos>)
    requires NoDup(list)
    ensures NoDup(TouchNeighbours(list, r, rooms))
    ensures forall q :: q in TouchNeighbours(list, r, rooms) <==> q in list || (q !in rooms && Adjacent(r, q))
  {
    AddAllMembers(list, [Step(r, Up), Step(r, Right), Step(r, Bottom), Step(r, Left)], rooms);
    TouchNeighboursIn(list, r, rooms);
  }

  /** The cells touching one room adds to the candidate list are its neighbours that are not rooms. */
  lemma TouchNeighboursIn(list: seq<Pos>, r: Pos, rooms: seq<Pos>)
    ensures forall q :: q in TouchNeighbours(list, r, rooms) <==> q in list || (q !in rooms && Adjacent(r, q))
  {
    var cells := [Step(r, Up), Step(r, Right), Step(r, Bottom), Step(r, Left)];
    AddAllMembers(list, cells, rooms);
    forall q
      ensures q in cells <==> Adjacent(r, q)
    {
      AdjacentIffStep(r, q);
    }
  }

  /** `q` is adjacent to one of the first `n` rooms. */
  ghost predicate NextToScanned(rooms: seq<Pos>, n: nat, q: Pos)
    requires n <= |rooms|
  {
    exists k :: 0 <= k < n && Adjacent(rooms[k], q)
  }

  lemma NextToScannedStep(rooms: seq<Pos>, n: nat, q: Pos)
    requires 0 < n <= |rooms|
    ensures NextToScanned(rooms, n, q) <==> NextToScanned(rooms, n - 1, q) || Adjacent(rooms[n - 1], q)
  {
  }

  /** `q` belongs in the candidate list: it was there already, or it is a free cell next to a scanned room. */
  ghost predicate Candidate(list: seq<Pos>, rooms: seq<Pos>, n: nat, q: Pos)
    requires n <= |rooms|
  {
    q in list || (q !in rooms && NextToScanned(rooms, n, q))
  }

  /**
   * secret_position_list holds, each once, exactly the cells that were listed before and the
   * cells that are not rooms and are adjacent to one of the scanned rooms.
   */
  lemma SecretCandidatesMembers(list: seq<Pos>, rooms: seq<Pos>, n: nat)
    requires n <= |rooms| && NoDup(list)
    ensures NoDup(SecretCandidates(list, rooms, n))
    ensures forall q :: q in SecretCandidates(list, rooms, n) <==> Candidate(list, rooms, n, q)
  {
    SecretCandidatesNoDup(list, rooms, n);
    SecretCandidatesIn(list, rooms, n);
  }

  lemma {:induction false} SecretCandidatesNoDup(list: seq<Pos>, rooms: seq<Pos>, n: nat)
    requires n <= |rooms| && NoDup(list)
    ensures NoDup(SecretCandidates(list, rooms, n))
  {
    if n > 0 {
      SecretCandidatesNoDup(list, rooms, n - 1);
      TouchNeighboursMembers(SecretCandidates(list, rooms, n - 1), rooms[n - 1], rooms);
    }
  }

  lemma {:induction false} SecretCandidatesIn(list: seq<Pos>, rooms: seq<Pos>, n: nat)
    requires n <= |rooms|
    ensures forall q :: q in SecretCandidates(list, rooms, n) <==> Candidate(list, rooms, n, q)
  {
    if n > 0 {
      var l := SecretCandidates(list, rooms, n - 1);
      SecretCandidatesIn(list, rooms, n - 1);
      TouchNeighboursIn(l, rooms[n - 1], rooms);
      forall q
        ensures q in SecretCandidates(list, rooms, n) <==> Candidate(list, rooms, n, q)
      {
        NextToScannedStep(rooms, n, q);
      }
    }
  }

  /** Every candidate is adjacent to a room, so it lies at most one step further from the centre. */
  lemma CandidatesNearRooms(rooms: seq<Pos>, q: Pos, bound: nat)
    requires forall k :: 0 <= k < |rooms| ==> Dist(rooms[k]) <= bound
    requires q in SecretCandidates([], rooms, |rooms|)
    ensures Dist(q) <= bound + 1 && q !in rooms
  {
    SecretCandidatesMembers([], rooms, |rooms|);
    var k :| 0 <= k < |rooms| && Adjacent(rooms[k], q);
    AdjacentIffStep(rooms[k], q);
    var d :| Step(rooms[k], d) == q;
    StepDist(rooms[k], d);
  }

  // ---------------------------------------------------------------- item rooms

  /**
   * item_rooms_list after map_find_item_rooms has scanned `ends`, starting from `list`: every end
   * room that is neither the boss nor the shop room (None never matches, as NULL matches no tile)
   * is handed to map_add_tile_to_list.
   */
  function ItemRoomsScan(list: seq<Pos>, ends: seq<Pos>, boss: Option<Pos>, shop: Option<Pos>): seq<Pos>
  {
    if ends == [] then list
    else
      var l := ItemRoomsScan(list, ends[..|ends| - 1], boss, shop);
      var q := ends[|ends| - 1];
      if Some(q) == boss || Some(q) == shop then l else AddTileToList(l, q)
  }

  /** The tile `t` at `q` once map_find_item_rooms has scanned `ends`: an end room other than boss and shop is ROOM_ITEM. */
  function ItemTile(t: Tile, q: Pos, ends: seq<Pos>, boss: Option<Pos>, shop: Option<Pos>): Tile
  {
    if q in ends && Some(q) != boss && Some(q) != shop then t.(kind := Item) else t
  }

  /** Scanning one more end room changes only that room's tile. */
  lemma ItemTileStep(t: Tile, q: Pos, ends: seq<Pos>, i: nat, boss: Option<Pos>, shop: Option<Pos>)
    requires i < |ends|
    ensures var c := ItemTile(t, q, ends[..i], boss, shop);
      ItemTile(t, q, ends[..i + 1], boss, shop) ==
        if q == ends[i] && Some(q) != boss && Some(q) != shop then c.(kind := Item) else c
  {
    assert ends[..i + 1] == ends[..i] + [ends[i]];
  }

  /** The item rooms are the end rooms other than boss and shop, added to the list each once. */
  lemma {:induction false} ItemRoomsMembers(list: seq<Pos>, ends: seq<Pos>, boss: Option<Pos>, shop: Option<Pos>)
    requires NoDup(list)
    ensures NoDup(ItemRoomsScan(list, ends, boss, shop))
    ensures forall q :: q in ItemRoomsScan(list, ends, boss, shop) <==>
      q in list || (q in ends && Some(q) != boss && Some(q) != shop)
  {
    if ends != [] {
      var pre := ends[..|ends| - 1];
      ItemRoomsMembers(list, pre, boss, shop);
      assert forall s :: s in ends <==> s in pre || s == ends[|ends| - 1] by {
        assert ends == pre + [ends[|ends| - 1]];
      }
    }
  }

  /**
   * Starting from an empty list, boss and shop each remove one end room from the item rooms when
   * they are different end rooms: this is the count map_find_item_rooms compares with
   * end_rooms_list.count - 2.
   */
  lemma {:induction false} ItemRoomsCount(ends: seq<Pos>, boss: Option<Pos>, shop: Option<Pos>)
    requires NoDup(ends)
    ensures |ItemRoomsScan([], ends, boss, shop)| ==
      |ends| - Ind(boss.Some? && boss.value in ends) - Ind(shop.Some? && shop.value in ends && shop != boss)
  {
    if ends != [] {
      var pre, q := ends[..|ends| - 1], ends[|ends| - 1];
      NoDupPrefix(ends, |ends| - 1);
      ItemRoomsCount(pre, boss, shop);
      ItemRoomsMembers([], pre, boss, shop);
      assert ends == pre + [q];
      assert q !in pre;
      assert boss.Some? && boss.value in ends <==> boss.Some? && (boss.value in pre || boss.value == q);
      assert shop.Some? && shop.value in ends <==> shop.Some? && (shop.value in pre || shop.value == q);
    }
  }

  // ---------------------------------------------------------------- boss room

  /** Squared distance on the grid; it orders rooms as `vec_dist` between their world positions does. */
  function SqDist(a: Pos, b: Pos): nat
  {
    (a.x - b.x) * (a.x - b.x) + (a.y - b.y) * (a.y - b.y)
  }

  /** Only a room at the start position is at distance 0 from it. */
  lemma SqDistZero(a: Pos, b: Pos)
    ensures SqDist(a, b) == 0 <==> a == b
  {
    if a.x != b.x {
      assert (a.x - b.x) * (a.x - b.x) > 0;
    }
    if a.y != b.y {
      assert (a.y - b.y) * (a.y - b.y) > 0;
    }
  }

  /**
   * Index `j` is where map_find_boss_room ends up: a room strictly farther than the initial
   * `farthest_distance` of 0, at least as far as every room, and strictly farther than every room
   * before it (the comparison is `>`, so the earliest of equally far rooms wins).
   */
  ghost predicate IsFirstFarthest(rooms: seq<Pos>, start: Pos, j: int)
  {
    0 <= j < |rooms| && SqDist(rooms[j], start) > 0 &&
    (forall k :: 0 <= k < |rooms| ==> SqDist(rooms[k], start) <= SqDist(rooms[j], start)) &&
    (forall k :: 0 <= k < j ==> SqDist(rooms[k], start) < SqDist(rooms[j], start))
  }

  /** The boss room is determined: no two indices are both the first farthest. */
  lemma FirstFarthestUnique(rooms: seq<Pos>, start: Pos, i: int, j: int)
    requires IsFirstFarthest(rooms, start, i) && IsFirstFarthest(rooms, start, j)
    ensures i == j
  {
  }

  /**
   * The index map_find_boss_room settles on after scanning `rooms`, or -1 when it keeps its initial
   * `pos_x = -1`: a room replaces the current choice only when it is strictly farther than the
   * farthest distance so far, which starts at 0.
   */
  function FarthestIndex(rooms: seq<Pos>, start: Pos): (j: int)
    ensures -1 <= j < |rooms|
  {
    if rooms == [] then -1
    else
      var j := FarthestIndex(rooms[..|rooms| - 1], start);
      var farthest := if j == -1 then 0 else SqDist(rooms[j], start);
      if SqDist(rooms[|rooms| - 1], start) > farthest then |rooms| - 1 else j
  }

  /**
   * The scan finds nothing exactly when every room is the start room itself; otherwise it finds the
   * first of the farthest rooms.
   */
  lemma {:induction false} FarthestIndexIsFirstFarthest(rooms: seq<Pos>, start: Pos)
    ensures FarthestIndex(rooms, start) == -1 <==> forall k :: 0 <= k < |rooms| ==> rooms[k] == start
    ensures FarthestIndex(rooms, start) != -1 ==> IsFirstFarthest(rooms, start, FarthestIndex(rooms, start))
  {
    if rooms != [] {
      var pre, last := rooms[..|rooms| - 1], rooms[|rooms| - 1];
      var j := FarthestIndex(pre, start);
      assert (j == -1 <==> forall k :: 0 <= k < |pre| ==> pre[k] == start) &&
        (j != -1 ==> IsFirstFarthest(pre, start, j)) by {
        FarthestIndexIsFirstFarthest(pre, start);
      }
      assert forall k :: 0 <= k < |pre| ==> rooms[k] == pre[k];
      SqDistZero(last, start);
      if j == -1 {
        forall k | 0 <= k < |pre|
          ensures SqDist(rooms[k], start) == 0
        {
          SqDistZero(rooms[k], start);
        }
      }
    }
  }

  // ---------------------------------------------------------------- end rooms

  /**
   * The test of map_find_end_rooms: a ROOM_NORMAL room with at most one door that borders at most
   * one room.
   */
  predicate IsEndRoom(tiles: array2<Tile>, q: Pos)
    reads tiles
    requires WellFormed(tiles) && Interior(q)
  {
    KindAt(tiles, q) == Normal && At(tiles, q).doors <= 1 && CountBorderingRooms(tiles, q) <= 1
  }

  /** end_rooms_list after map_find_end_rooms has scanned `rooms`, starting from `list`. */
  function EndRoomsScan(tiles: array2<Tile>, list: seq<Pos>, rooms: seq<Pos>): seq<Pos>
    reads tiles
    requires WellFormed(tiles) && forall k :: 0 <= k < |rooms| ==> Interior(rooms[k])
  {
    if rooms == [] then list
    else
      var l := EndRoomsScan(tiles, list, rooms[..|rooms| - 1]);
      var q := rooms[|rooms| - 1];
      if IsEndRoom(tiles, q) then AddTileToList(l, q) else l
  }

  /** The end rooms are the scanned rooms that pass the test, each listed once. */
  lemma {:induction false} EndRoomsMembers(tiles: array2<Tile>, list: seq<Pos>, rooms: seq<Pos>)
    requires WellFormed(tiles) && forall k :: 0 <= k < |rooms| ==> Interior(rooms[k])
    requires NoDup(list)
    ensures NoDup(EndRoomsScan(tiles, list, rooms))
    ensures forall q :: q in EndRoomsScan(tiles, list, rooms) <==>
      q in list || exists k :: 0 <= k < |rooms| && rooms[k] == q && IsEndRoom(tiles, q)
  {
    if rooms != [] {
      var pre := rooms[..|rooms| - 1];
      EndRoomsMembers(tiles, list, pre);
      assert forall k :: 0 <= k < |pre| ==> pre[k] == rooms[k];
    }
  }

  // ---------------------------------------------------------------- secret rooms

  function Chance(tiles: array2<Tile>, q: Pos): int
    reads tiles
    requires WellFormed(tiles) && InGrid(q)
  {
    At(tiles, q).secretChance
  }

  /**
   * The rank a selection pass sees for candidate `q`: its secret chance, or 0 when it lies between
   * rooms of one kind (is_room_all_same_neighbours), so that no pass, whose chance is 1 to 4, takes it.
   */
  ghost function PassRank(tiles: array2<Tile>, q: Pos): int
    reads tiles
    requires WellFormed(tiles) && Interior(q)
  {
    if AllSameNeighbours(tiles, q) then 0 else Chance(tiles, q)
  }

  /** The ranks of all candidates, as the selection passes see them on a fixed grid. */
  ghost function PassRanks(tiles: array2<Tile>, cands: seq<Pos>): map<Pos, int>
    reads tiles
    requires WellFormed(tiles) && forall k :: 0 <= k < |cands| ==> Interior(cands[k])
  {
    map q | q in cands :: PassRank(tiles, q)
  }

  /**
   * One pass of map_find_secret_rooms over the candidates `cands`, listing those of rank `chance`
   * until `max` rooms are listed (the `break` once secret_rooms_list.count >= max_secrets).
   */
  function RankPass(list: seq<Pos>, cands: seq<Pos>, ranks: map<Pos, int>, chance: int, max: int): seq<Pos>
    requires forall q :: q in cands ==> q in ranks
    decreases |cands|
  {
    if cands == [] || |list| >= max then list
    else
      var l := if ranks[cands[0]] == chance then AddTileToList(list, cands[0]) else list;
      RankPass(l, cands[1..], ranks, chance, max)
  }

  /** The passes `i` to 3 of map_find_secret_rooms, pass `i` listing the candidates of rank 4 - i. */
  function RankPasses(list: seq<Pos>, cands: seq<Pos>, ranks: map<Pos, int>, max: int, i: nat): seq<Pos>
    requires forall q :: q in cands ==> q in ranks
    decreases 4 - i
  {
    if i >= 4 || |list| >= max then list
    else RankPasses(RankPass(list, cands, ranks, 4 - i, max), cands, ranks, max, i + 1)
  }

  /** One selection pass of chance `chance` on the grid `tiles`. */
  ghost function SecretPass(tiles: array2<Tile>, list: seq<Pos>, cands: seq<Pos>, chance: int, max: int): seq<Pos>
    reads tiles
    requires WellFormed(tiles) && forall k :: 0 <= k < |cands| ==> Interior(cands[k])
  {
    RankPass(list, cands, PassRanks(tiles, cands), chance, max)
  }

  /** The selection passes from `i` on, on the grid `tiles`. */
  ghost function SecretPasses(tiles: array2<Tile>, list: seq<Pos>, cands: seq<Pos>, max: int, i: nat): seq<Pos>
    reads tiles
    requires WellFormed(tiles) && forall k :: 0 <= k < |cands| ==> Interior(cands[k])
  {
    RankPasses(list, cands, PassRanks(tiles, cands), max, i)
  }

  /**
   * A pass appends to the list, without repeats and without exceeding `max`, only candidates of its
   * rank; when it stops short of `max` it has taken every such candidate.
   */
  lemma {:induction false} RankPassTakes(list: seq<Pos>, cands: seq<Pos>, ranks: map<Pos, int>, chance: int, max: int)
    requires forall q :: q in cands ==> q in ranks
    requires NoDup(list) && |list| <= max
    ensures var r := RankPass(list, cands, ranks, chance, max);
      NoDup(r) && list <= r && |r| <= max &&
      (forall k :: |list| <= k < |r| ==> r[k] in cands && ranks[r[k]] == chance) &&
      (|r| < max ==> forall q :: q in cands && ranks[q] == chance ==> q in r)
    decreases |cands|
  {
    if cands != [] && |list| < max {
      var q := cands[0];
      var l := if ranks[q] == chance then AddTileToList(list, q) else list;
      assert forall p :: p in cands[1..] ==> p in cands;
      RankPassTakes(l, cands[1..], ranks, chance, max);
      var r := RankPass(l, cands[1..], ranks, chance, max);
      assert r == RankPass(list, cands, ranks, chance, max);
      assert forall p :: p in cands ==> p == q || p in cands[1..];
      if ranks[q] == chance {
        assert q in l && l <= r;
        assert q in r;
      }
    }
  }

  /** The passes only append, without repeats, up to `max` rooms. */
  lemma {:induction false} RankPassesBound(list: seq<Pos>, cands: seq<Pos>, ranks: map<Pos, int>, max: int, i: nat)
    requires forall q :: q in cands ==> q in ranks
    requires NoDup(list) && |list| <= max
    ensures var r := RankPasses(list, cands, ranks, max, i);
      NoDup(r) && list <= r && |r| <= max
    decreases 4 - i
  {
    if i < 4 && |list| < max {
      RankPassTakes(list, cands, ranks, 4 - i, max);
      RankPassesBound(RankPass(list, cands, ranks, 4 - i, max), cands, ranks, max, i + 1);
    }
  }

  /**
   * The selection from pass `i` on: distinct candidates, at most `max` of them, each of rank 1 to
   * 4 - i, taken in non-increasing order of rank; when fewer than `max` are taken, every candidate
   * of rank 1 to 4 - i is taken.
   */
  lemma RankPassesSelect(list: seq<Pos>, cands: seq<Pos>, ranks: map<Pos, int>, max: int, i: nat)
    requires forall q :: q in cands ==> q in ranks
    requires NoDup(list) && |list| <= max && i <= 4
    ensures var r := RankPasses(list, cands, ranks, max, i);
      NoDup(r) && list <= r && |r| <= max &&
      (forall k :: |list| <= k < |r| ==> r[k] in cands && 1 <= ranks[r[k]] <= 4 - i) &&
      (forall j, k :: |list| <= j < k < |r| ==> r[j] in ranks && r[k] in ranks && ranks[r[j]] >= ranks[r[k]]) &&
      (|r| < max ==> forall q :: q in cands && 1 <= ranks[q] <= 4 - i ==> q in r)
  {
    RankPassesBound(list, cands, ranks, max, i);
    RankPassesTaken(list, cands, ranks, max, i);
    RankPassesOrdered(list, cands, ranks, max, i);
    RankPassesComplete(list, cands, ranks, max, i);
  }

  /** What the passes from `i` on append are candidates of rank 1 to 4 - i. */
  lemma {:induction false} RankPassesTaken(list: seq<Pos>, cands: seq<Pos>, ranks: map<Pos, int>, max: int, i: nat)
    requires forall q :: q in cands ==> q in ranks
    requires NoDup(list) && |list| <= max && i <= 4
    ensures var r := RankPasses(list, cands, ranks, max, i);
      forall k :: |list| <= k < |r| ==> r[k] in cands && 1 <= ranks[r[k]] <= 4 - i
    decreases 4 - i
  {
    if i < 4 && |list| < max {
      var l := RankPass(list, cands, ranks, 4 - i, max);
      RankPassTakes(list, cands, ranks, 4 - i, max);
      RankPassesBound(l, cands, ranks, max, i + 1);
      RankPassesTaken(l, cands, ranks, max, i + 1);
      var r := RankPasses(l, cands, ranks, max, i + 1);
      assert r == RankPasses(list, cands, ranks, max, i);
      forall k | |list| <= k < |r|
        ensures r[k] in cands && 1 <= ranks[r[k]] <= 4 - i
      {
        if k < |l| {
          assert r[k] == l[k];
        }
      }
    }
  }

  /** The passes append in non-increasing order of rank. */
  lemma {:induction false} RankPassesOrdered(list: seq<Pos>, cands: seq<Pos>, ranks: map<Pos, int>, max: int, i: nat)
    requires forall q :: q in cands ==> q in ranks
    requires NoDup(list) && |list| <= max && i <= 4
    ensures var r := RankPasses(list, cands, ranks, max, i);
      forall j, k :: |list| <= j < k < |r| ==> r[j] in ranks && r[k] in ranks && ranks[r[j]] >= ranks[r[k]]
    decreases 4 - i
  {
    if i < 4 && |list| < max {
      var l := RankPass(list, cands, ranks, 4 - i, max);
      RankPassTakes(list, cands, ranks, 4 - i, max);
      RankPassesBound(l, cands, ranks, max, i + 1);
      RankPassesTaken(l, cands, ranks, max, i + 1);
      RankPassesOrdered(l, cands, ranks, max, i + 1);
      var r := RankPasses(l, cands, ranks, max, i + 1);
      assert r == RankPasses(list, cands, ranks, max, i);
      forall j, k | |list| <= j < k < |r|
        ensures r[j] in ranks && r[k] in ranks && ranks[r[j]] >= ranks[r[k]]
      {
        if j < |l| {
          assert r[j] == l[j];
          if k < |l| {
            assert r[k] == l[k];
          }
        }
      }
    }
  }

  /** When the passes from `i` on stop short of `max`, they took every candidate of rank 1 to 4 - i. */
  lemma {:induction false} RankPassesComplete(list: seq<Pos>, cands: seq<Pos>, ranks: map<Pos, int>, max: int, i: nat)
    requires forall q :: q in cands ==> q in ranks
    requires NoDup(list) && |list| <= max && i <= 4
    ensures var r := RankPasses(list, cands, ranks, max, i);
      |r| < max ==> forall q :: q in cands && 1 <= ranks[q] <= 4 - i ==> q in r
    decreases 4 - i
  {
    if i < 4 && |list| < max {
      var l := RankPass(list, cands, ranks, 4 - i, max);
      RankPassTakes(list, cands, ranks, 4 - i, max);
      RankPassesBound(l, cands, ranks, max, i + 1);
      RankPassesComplete(l, cands, ranks, max, i + 1);
      var r := RankPasses(l, cands, ranks, max, i + 1);
      assert r == RankPasses(list, cands, ranks, max, i);
      if |r| < max {
        assert |l| < max by {
          assert l <= r;
        }
        forall q | q in cands && 1 <= ranks[q] <= 4 - i
          ensures q in r
        {
          if ranks[q] == 4 - i {
            assert q in l;
            var m :| 0 <= m < |l| && l[m] == q;
            assert r[m] == l[m];
          }
        }
      }
    }
  }

  /**
   * The selection of map_find_secret_rooms from pass `i` on: distinct candidates, at most `max` of
   * them, each of rank 1 to 4 - i (so not between rooms of one kind, and of that secret chance),
   * taken in non-increasing order of rank; when fewer than `max` are taken, every candidate of
   * rank 1 to 4 - i is taken.
   */
  lemma SecretPassesSelect(tiles: array2<Tile>, list: seq<Pos>, cands: seq<Pos>, max: int, i: nat)
    requires WellFormed(tiles) && forall k :: 0 <= k < |cands| ==> Interior(cands[k])
    requires NoDup(list) && |list| <= max && i <= 4
    ensures var r := SecretPasses(tiles, list, cands, max, i);
      NoDup(r) && list <= r && |r| <= max &&
      (forall k :: |list| <= k < |r| ==> r[k] in cands && Interior(r[k]) && 1 <= PassRank(tiles, r[k]) <= 4 - i) &&
      (forall j, k :: |list| <= j < k < |r| ==>
        Interior(r[j]) && Interior(r[k]) && PassRank(tiles, r[j]) >= PassRank(tiles, r[k])) &&
      (|r| < max ==> forall q :: q in cands && Interior(q) && 1 <= PassRank(tiles, q) <= 4 - i ==> q in r)
  {
    var ranks := PassRanks(tiles, cands);
    RankPassesSelect(list, cands, ranks, max, i);
    var r := RankPasses(list, cands, ranks, max, i);
    assert r == SecretPasses(tiles, list, cands, max, i);
    forall q | q in cands
      ensures Interior(q) && ranks[q] == PassRank(tiles, q)
    {
      var k :| 0 <= k < |cands| && cands[k] == q;
    }
    forall j, k | |list| <= j < k < |r|
      ensures Interior(r[j]) && Interior(r[k]) && PassRank(tiles, r[j]) >= PassRank(tiles, r[k])
    {
      assert r[j] in cands && r[k] in cands;
    }
  }

  /** A candidate of rank 1 or more is not between rooms of one kind, and its rank is its secret chance. */
  lemma PassRankMeaning(tiles: array2<Tile>, q: Pos)
    requires WellFormed(tiles) && Interior(q)
    ensures 1 <= PassRank(tiles, q) <==> !AllSameNeighbours(tiles, q) && 1 <= Chance(tiles, q)
    ensures 1 <= PassRank(tiles, q) ==> PassRank(tiles, q) == Chance(tiles, q)
  {
  }

  /** The passes only ever list rooms they were given or candidates. */
  lemma {:induction false} RankPassesWithin(list: seq<Pos>, cands: seq<Pos>, ranks: map<Pos, int>, max: int, i: nat)
    requires forall q :: q in cands ==> q in ranks
    ensures forall q :: q in RankPasses(list, cands, ranks, max, i) ==> q in list || q in cands
    decreases 4 - i
  {
    if i < 4 && |list| < max {
      RankPassWithin(list, cands, ranks, 4 - i, max);
      RankPassesWithin(RankPass(list, cands, ranks, 4 - i, max), cands, ranks, max, i + 1);
    }
  }

  /** A pass only ever lists rooms it was given or candidates. */
  lemma {:induction false} RankPassWithin(list: seq<Pos>, cands: seq<Pos>, ranks: map<Pos, int>, chance: int, max: int)
    requires forall q :: q in cands ==> q in ranks
    ensures forall q :: q in RankPass(list, cands, ranks, chance, max) ==> q in list || q in cands
    decreases |cands|
  {
    if cands != [] && |list| < max {
      var q := cands[0];
      var l := if ranks[q] == chance then AddTileToList(list, q) else list;
      assert forall p :: p in cands[1..] ==> p in cands;
      RankPassWithin(l, cands[1..], ranks, chance, max);
    }
  }

  // ---------------------------------------------------------------- wiring

  /** is_valid_secret_neighbours for the neighbour of `q` in direction `d`. */
  ghost predicate ValidToward(tiles: array2<Tile>, q: Pos, d: Dir)
    reads tiles
    requires WellFormed(tiles) && Interior(q)
  {
    InteriorNeighbours(q);
    IsValidSecretNeighbour(KindAt(tiles, Step(q, d)))
  }

  /** The neighbour of `q` in direction `d`. */
  function Neighbour(tiles: array2<Tile>, q: Pos, d: Dir): Tile
    reads tiles
    requires WellFormed(tiles) && Interior(q)
  {
    InteriorNeighbours(q);
    At(tiles, Step(q, d))
  }

  /** `q` has a door towards `d`, and its neighbour there the secret door back towards `q`. */
  ghost predicate DoorPair(tiles: array2<Tile>, q: Pos, d: Dir)
    reads tiles
    requires WellFormed(tiles) && Interior(q)
  {
    Door(At(tiles, q), d) && SecretDoor(Neighbour(tiles, q, d), Mirror(d))
  }

  /**
   * A secret or super secret room `t` once wired: its type is `kind`, and the door flag and
   * counter have been set for each direction whose flag (`up`, `right`, `bottom`, `left`) is true.
   */
  function WiredTile(t: Tile, kind: RoomType, up: bool, right: bool, bottom: bool, left: bool): Tile
  {
    WithDoorIf(WithDoorIf(WithDoorIf(WithDoorIf(t.(kind := kind), Up, up), Right, right), Bottom, bottom), Left, left)
  }

  /**
   * A wired room has type `kind`, keeps its secret doors and chance, has a door exactly where it
   * had one or where it opened one, and counts one more door per opened direction.
   */
  lemma WiredTileDoors(t: Tile, kind: RoomType, up: bool, right: bool, bottom: bool, left: bool)
    ensures var r := WiredTile(t, kind, up, right, bottom, left);
      r.kind == kind && r.id == t.id && r.posX == t.posX && r.posY == t.posY &&
      r.secretChance == t.secretChance && r.secretDoors == t.secretDoors &&
      (forall d :: SecretDoor(r, d) == SecretDoor(t, d)) &&
      (r.up <==> t.up || up) && (r.right <==> t.right || right) &&
      (r.bottom <==> t.bottom || bottom) && (r.left <==> t.left || left) &&
      r.doors == t.doors + Ind(up) + Ind(right) + Ind(bottom) + Ind(left)
  {
  }

  /** WiredTile as one update of the tile's fields. */
  lemma WiredTileUpdate(t: Tile, kind: RoomType, up: bool, right: bool, bottom: bool, left: bool)
    ensures WiredTile(t, kind, up, right, bottom, left) ==
      t.(kind := kind, up := t.up || up, right := t.right || right, bottom := t.bottom || bottom, left := t.left || left,
         doors := t.doors + Ind(up) + Ind(right) + Ind(bottom) + Ind(left))
  {
  }

  /**
   * Whether the wiring of the k-th listed room accepts its neighbour `n`: the type `n` has at
   * that turn, ROOM_SECRET when it was listed earlier and its type on `g0` otherwise, is a valid
   * secret neighbour.
   */
  ghost predicate AcceptedAt(g0: map<Pos, Tile>, rooms: seq<Pos>, k: nat, n: Pos)
  {
    n in g0 && IsValidSecretNeighbour(if IndexOf(rooms, n) < k then Secret else g0[n].kind)
  }

  /** Whether `c` is among the first `i` listed rooms and, at its turn, opened a door in direction `d`. */
  ghost predicate OpenedToward(g0: map<Pos, Tile>, rooms: seq<Pos>, i: nat, c: Pos, d: Dir)
  {
    IndexOf(rooms, c) < i && AcceptedAt(g0, rooms, IndexOf(rooms, c), Step(c, d))
  }

  /** Whether the neighbour of `c` in direction `d` is among the first `i` listed rooms and, at its turn, accepted `c`. */
  ghost predicate SecretFrom(g0: map<Pos, Tile>, rooms: seq<Pos>, i: nat, c: Pos, d: Dir)
  {
    IndexOf(rooms, Step(c, d)) < i && AcceptedAt(g0, rooms, IndexOf(rooms, Step(c, d)), c)
  }

  /**
   * A tile after the wiring loop, from its value `t` before it: when `wired` it is ROOM_SECRET
   * with the doors `o*` opened, and it carries the secret doors `s*` its neighbours opened.
   */
  function WiredTileWith(t: Tile, wired: bool, ou: bool, or: bool, ob: bool, ol: bool,
                         su: bool, sr: bool, sb: bool, sl: bool): Tile
  {
    t.(kind := if wired then Secret else t.kind,
       up := t.up || (wired && ou), right := t.right || (wired && or),
       bottom := t.bottom || (wired && ob), left := t.left || (wired && ol),
       doors := t.doors + if wired then Ind(ou) + Ind(or) + Ind(ob) + Ind(ol) else 0,
       secretUp := t.secretUp || su, secretRight := t.secretRight || sr,
       secretBottom := t.secretBottom || sb, secretLeft := t.secretLeft || sl,
       secretDoors := t.secretDoors + Ind(su) + Ind(sr) + Ind(sb) + Ind(sl))
  }

  /**
   * The tile at `c` once the wiring loop of map_find_secret_rooms has wired the first `i` rooms
   * of `rooms`, starting from the grid `g0`: a wired room is ROOM_SECRET with its opened doors,
   * and every tile carries the secret doors its wired neighbours opened towards it.
   */
  ghost function WiredGridTile(g0: map<Pos, Tile>, rooms: seq<Pos>, i: nat, c: Pos): Tile
    requires c in g0
  {
    WiredTileWith(g0[c], IndexOf(rooms, c) < i,
      OpenedToward(g0, rooms, i, c, Up), OpenedToward(g0, rooms, i, c, Right),
      OpenedToward(g0, rooms, i, c, Bottom), OpenedToward(g0, rooms, i, c, Left),
      SecretFrom(g0, rooms, i, c, Up), SecretFrom(g0, rooms, i, c, Right),
      SecretFrom(g0, rooms, i, c, Bottom), SecretFrom(g0, rooms, i, c, Left))
  }

  /** Wiring a tile that was not wired yet: the secret doors it carries stay, the doors open. */
  lemma WireTileWith(t: Tile, ou: bool, or: bool, ob: bool, ol: bool, su: bool, sr: bool, sb: bool, sl: bool)
    ensures WiredTile(WiredTileWith(t, false, false, false, false, false, su, sr, sb, sl), Secret, ou, or, ob, ol) ==
      WiredTileWith(t, true, ou, or, ob, ol, su, sr, sb, sl)
  {
    var before := WiredTileWith(t, false, false, false, false, false, su, sr, sb, sl);
    WiredTileUpdate(before, Secret, ou, or, ob, ol);
  }

  /** One more secret door, in a direction that had none from the loop, is one more flag of WiredTileWith. */
  lemma SecretDoorWith(t: Tile, wired: bool, ou: bool, or: bool, ob: bool, ol: bool,
                       su: bool, sr: bool, sb: bool, sl: bool, d: Dir)
    requires d == Up ==> !su
    requires d == Right ==> !sr
    requires d == Bottom ==> !sb
    requires d == Left ==> !sl
    ensures WithSecretDoor(WiredTileWith(t, wired, ou, or, ob, ol, su, sr, sb, sl), d) ==
      WiredTileWith(t, wired, ou, or, ob, ol, su || d == Up, sr || d == Right, sb || d == Bottom, sl || d == Left)
  {
    match d
    case Up =>
    case Right =>
    case Bottom =>
    case Left =>
  }

  /** The wired grid keeps every field but the type, doors and secret doors; the first `i` rooms are ROOM_SECRET. */
  lemma WiredGridTileKind(g0: map<Pos, Tile>, rooms: seq<Pos>, i: nat, c: Pos)
    requires c in g0
    ensures var r, t := WiredGridTile(g0, rooms, i, c), g0[c];
      r.kind == (if IndexOf(rooms, c) < i then Secret else t.kind) &&
      r.id == t.id && r.posX == t.posX && r.posY == t.posY && r.secretChance == t.secretChance
  {
  }

  /**
   * In the wired grid a tile has a door exactly where it had one on `g0` or where it opened one
   * at its turn, and one more door per opened direction.
   */
  lemma WiredGridTileDoors(g0: map<Pos, Tile>, rooms: seq<Pos>, i: nat, c: Pos)
    requires c in g0
    ensures var r, t := WiredGridTile(g0, rooms, i, c), g0[c];
      (forall d :: Door(r, d) <==> Door(t, d) || OpenedToward(g0, rooms, i, c, d)) &&
      r.doors == t.doors + Ind(OpenedToward(g0, rooms, i, c, Up)) + Ind(OpenedToward(g0, rooms, i, c, Right)) +
        Ind(OpenedToward(g0, rooms, i, c, Bottom)) + Ind(OpenedToward(g0, rooms, i, c, Left))
  {
  }

  /**
   * In the wired grid a tile has a secret door exactly where it had one on `g0` or where a wired
   * neighbour accepted it, and one more secret door per such neighbour.
   */
  lemma WiredGridTileSecretDoors(g0: map<Pos, Tile>, rooms: seq<Pos>, i: nat, c: Pos)
    requires c in g0
    ensures var r, t := WiredGridTile(g0, rooms, i, c), g0[c];
      (forall d :: SecretDoor(r, d) <==> SecretDoor(t, d) || SecretFrom(g0, rooms, i, c, d)) &&
      r.secretDoors == t.secretDoors + Ind(SecretFrom(g0, rooms, i, c, Up)) + Ind(SecretFrom(g0, rooms, i, c, Right)) +
        Ind(SecretFrom(g0, rooms, i, c, Bottom)) + Ind(SecretFrom(g0, rooms, i, c, Left))
  {
  }

  /**
   * A tile whose `doors` matched its door flags on `g0`, and that opens no door it already had,
   * ends with `doors` equal to its number of door flags.
   */
  lemma WiredGridTileDoorCount(g0: map<Pos, Tile>, rooms: seq<Pos>, i: nat, c: Pos)
    requires c in g0 && g0[c].doors == DoorCount(g0[c])
    requires forall d :: OpenedToward(g0, rooms, i, c, d) ==> !Door(g0[c], d)
    ensures var r := WiredGridTile(g0, rooms, i, c); r.doors == DoorCount(r)
  {
    WiredGridTileDoors(g0, rooms, i, c);
    var t := g0[c];
    assert OpenedToward(g0, rooms, i, c, Up) ==> !Door(t, Up);
    assert OpenedToward(g0, rooms, i, c, Right) ==> !Door(t, Right);
    assert OpenedToward(g0, rooms, i, c, Bottom) ==> !Door(t, Bottom);
    assert OpenedToward(g0, rooms, i, c, Left) ==> !Door(t, Left);
  }

  /**
   * A tile whose `secret_doors` matched its secret door flags on `g0`, and that gets no secret
   * door it already had, ends with `secret_doors` equal to its number of secret door flags.
   */
  lemma WiredGridTileSecretDoorCount(g0: map<Pos, Tile>, rooms: seq<Pos>, i: nat, c: Pos)
    requires c in g0 && g0[c].secretDoors == SecretDoorCount(g0[c])
    requires forall d :: SecretFrom(g0, rooms, i, c, d) ==> !SecretDoor(g0[c], d)
    ensures var r := WiredGridTile(g0, rooms, i, c); r.secretDoors == SecretDoorCount(r)
  {
    WiredGridTileSecretDoors(g0, rooms, i, c);
    var t := g0[c];
    assert SecretFrom(g0, rooms, i, c, Up) ==> !SecretDoor(t, Up);
    assert SecretFrom(g0, rooms, i, c, Right) ==> !SecretDoor(t, Right);
    assert SecretFrom(g0, rooms, i, c, Bottom) ==> !SecretDoor(t, Bottom);
    assert SecretFrom(g0, rooms, i, c, Left) ==> !SecretDoor(t, Left);
  }

  /**
   * The k-th listed room `r` after the loop, from its tile `g0[rooms[k]]`: ROOM_SECRET, with a door
   * exactly where it had one or towards a neighbour it accepted at its turn (none towards a refused
   * one), and one more door per accepted neighbour.
   */
  ghost predicate WiredRoomIs(g0: map<Pos, Tile>, rooms: seq<Pos>, k: nat, r: Tile)
    requires k < |rooms| && rooms[k] in g0
  {
    var q, t := rooms[k], g0[rooms[k]];
    r.kind == Secret &&
    (forall d :: Door(r, d) <==> Door(t, d) || AcceptedAt(g0, rooms, k, Step(q, d))) &&
    r.doors == t.doors + Ind(AcceptedAt(g0, rooms, k, Step(q, Up))) + Ind(AcceptedAt(g0, rooms, k, Step(q, Right))) +
      Ind(AcceptedAt(g0, rooms, k, Step(q, Bottom))) + Ind(AcceptedAt(g0, rooms, k, Step(q, Left)))
  }

  /** Every listed room of `g`, the grid after the wiring loop from `g0`, is the room WiredRoomIs describes. */
  ghost predicate RoomsWired(g0: map<Pos, Tile>, g: map<Pos, Tile>, rooms: seq<Pos>)
  {
    forall k :: 0 <= k < |rooms| ==> rooms[k] in g0 && rooms[k] in g && WiredRoomIs(g0, rooms, k, g[rooms[k]])
  }

  /**
   * `g` is the grid the wiring loop leaves after wiring every room of `rooms` from `g0`: each
   * tile is the one WiredCell describes and, with no room listed twice, the one WiredGridTile
   * gives in closed form, so that every listed room is the one WiredRoomIs describes.
   */
  ghost predicate WiredGrid(g0: map<Pos, Tile>, g: map<Pos, Tile>, rooms: seq<Pos>)
  {
    (forall c :: c in g <==> c in g0) &&
    (forall c :: c in g0 ==> g[c] == WiredCell(g0, rooms, |rooms|, c)) &&
    (NoDup(rooms) ==> (forall c :: c in g0 ==> g[c] == WiredGridTile(g0, rooms, |rooms|, c)) && RoomsWired(g0, g, rooms))
  }

  /** A grid whose every tile is the one WiredCell describes is the grid WiredGrid describes. */
  lemma WiredGridAfter(g0: map<Pos, Tile>, g: map<Pos, Tile>, rooms: seq<Pos>)
    requires forall c :: c in g <==> c in g0
    requires forall c :: c in g0 ==> g[c] == WiredCell(g0, rooms, |rooms|, c)
    requires forall k :: 0 <= k < |rooms| ==> rooms[k] in g0
    ensures WiredGrid(g0, g, rooms)
  {
    if NoDup(rooms) {
      forall c | c in g0
        ensures g[c] == WiredGridTile(g0, rooms, |rooms|, c)
      {
        WiredCellClosedForm(g0, rooms, |rooms|, c);
      }
      forall k | 0 <= k < |rooms|
        ensures WiredRoomIs(g0, rooms, k, g[rooms[k]])
      {
        WiredRoom(g0, rooms, k);
      }
    }
  }

  /** With no room listed twice, the k-th room of the wired grid is the room WiredRoomIs describes. */
  lemma WiredRoom(g0: map<Pos, Tile>, rooms: seq<Pos>, k: nat)
    requires NoDup(rooms) && k < |rooms| && rooms[k] in g0
    ensures WiredRoomIs(g0, rooms, k, WiredGridTile(g0, rooms, |rooms|, rooms[k]))
  {
    IndexOfNoDup(rooms, k);
    WiredGridTileDoors(g0, rooms, |rooms|, rooms[k]);
  }

  /** Before the loop no room is wired: every tile is the one on `g0`. */
  lemma WiredGridStart(g0: map<Pos, Tile>, rooms: seq<Pos>, c: Pos)
    requires c in g0
    ensures WiredGridTile(g0, rooms, 0, c) == g0[c]
  {
  }

  /** WiredGridTile for given values of its flags. */
  lemma WiredGridTileIs(g0: map<Pos, Tile>, rooms: seq<Pos>, i: nat, c: Pos, wired: bool,
                        ou: bool, or: bool, ob: bool, ol: bool, su: bool, sr: bool, sb: bool, sl: bool)
    requires c in g0 && wired == (IndexOf(rooms, c) < i)
    requires ou == OpenedToward(g0, rooms, i, c, Up) && or == OpenedToward(g0, rooms, i, c, Right)
    requires ob == OpenedToward(g0, rooms, i, c, Bottom) && ol == OpenedToward(g0, rooms, i, c, Left)
    requires su == SecretFrom(g0, rooms, i, c, Up) && sr == SecretFrom(g0, rooms, i, c, Right)
    requires sb == SecretFrom(g0, rooms, i, c, Bottom) && sl == SecretFrom(g0, rooms, i, c, Left)
    ensures WiredGridTile(g0, rooms, i, c) == WiredTileWith(g0[c], wired, ou, or, ob, ol, su, sr, sb, sl)
  {
  }

  /** At its own turn the i-th room has opened nothing yet, opens towards each accepted neighbour, and keeps the secret doors it has. */
  lemma WireRoomFlags(g0: map<Pos, Tile>, rooms: seq<Pos>, i: nat, d: Dir)
    requires i < |rooms| && IndexOf(rooms, rooms[i]) == i
    ensures !OpenedToward(g0, rooms, i, rooms[i], d)
    ensures OpenedToward(g0, rooms, i + 1, rooms[i], d) == AcceptedAt(g0, rooms, i, Step(rooms[i], d))
    ensures SecretFrom(g0, rooms, i + 1, rooms[i], d) == SecretFrom(g0, rooms, i, rooms[i], d)
  {
    assert Step(rooms[i], d) != rooms[i];
  }

  /** Wiring the i-th room turns its tile, as it stands after i rooms, into its tile after i + 1. */
  lemma WireRoomTile(g0: map<Pos, Tile>, rooms: seq<Pos>, i: nat, before: Tile, up: bool, right: bool, bottom: bool, left: bool)
    requires i < |rooms| && IndexOf(rooms, rooms[i]) == i && rooms[i] in g0
    requires before == WiredGridTile(g0, rooms, i, rooms[i])
    requires up == AcceptedAt(g0, rooms, i, Step(rooms[i], Up)) && right == AcceptedAt(g0, rooms, i, Step(rooms[i], Right))
    requires bottom == AcceptedAt(g0, rooms, i, Step(rooms[i], Bottom)) && left == AcceptedAt(g0, rooms, i, Step(rooms[i], Left))
    ensures WiredTile(before, Secret, up, right, bottom, left) == WiredGridTile(g0, rooms, i + 1, rooms[i])
  {
    var q := rooms[i];
    WireRoomFlags(g0, rooms, i, Up);
    WireRoomFlags(g0, rooms, i, Right);
    WireRoomFlags(g0, rooms, i, Bottom);
    WireRoomFlags(g0, rooms, i, Left);
    var su, sr := SecretFrom(g0, rooms, i, q, Up), SecretFrom(g0, rooms, i, q, Right);
    var sb, sl := SecretFrom(g0, rooms, i, q, Bottom), SecretFrom(g0, rooms, i, q, Left);
    WiredGridTileIs(g0, rooms, i, q, false, false, false, false, false, su, sr, sb, sl);
    WiredGridTileIs(g0, rooms, i + 1, q, true, up, right, bottom, left, su, sr, sb, sl);
    WireTileWith(g0[q], up, right, bottom, left, su, sr, sb, sl);
  }

  /** A tile other than the i-th room is wired, and opened its doors, after i + 1 rooms exactly when it was after i. */
  lemma OpenedTowardStep(g0: map<Pos, Tile>, rooms: seq<Pos>, i: nat, c: Pos, d: Dir)
    requires i < |rooms| && IndexOf(rooms, rooms[i]) == i && c != rooms[i]
    ensures (IndexOf(rooms, c) < i + 1) == (IndexOf(rooms, c) < i)
    ensures OpenedToward(g0, rooms, i + 1, c, d) == OpenedToward(g0, rooms, i, c, d)
  {
  }

  /** Only the mirrored direction leads from a neighbour of `q` back to `q`. */
  lemma StepBack(q: Pos, e: Dir)
    ensures Step(Step(q, e), Mirror(e)) == q && Step(q, e) != q
    ensures forall d :: d != Mirror(e) ==> Step(Step(q, e), d) != q
  {
    match e
    case Up =>
    case Right =>
    case Bottom =>
    case Left =>
  }

  /** The neighbour `c` of the i-th room, which lies in direction `m` from `c`, gets its secret door back. */
  lemma SecretFromStep(g0: map<Pos, Tile>, rooms: seq<Pos>, i: nat, c: Pos, m: Dir, d: Dir)
    requires i < |rooms| && IndexOf(rooms, rooms[i]) == i
    requires Step(c, m) == rooms[i] && (d != m ==> Step(c, d) != rooms[i])
    ensures SecretFrom(g0, rooms, i + 1, c, d) ==
      if d == m then AcceptedAt(g0, rooms, i, c) else SecretFrom(g0, rooms, i, c, d)
    ensures d == m ==> !SecretFrom(g0, rooms, i, c, d)
  {
  }

  /** The flags of the neighbour `c` of the i-th room, which lies in direction `m` from `c`, one room further. */
  lemma NeighbourFlagsStep(g0: map<Pos, Tile>, rooms: seq<Pos>, i: nat, c: Pos, m: Dir)
    requires i < |rooms| && IndexOf(rooms, rooms[i]) == i && c != rooms[i]
    requires Step(c, m) == rooms[i] && forall d :: d != m ==> Step(c, d) != rooms[i]
    ensures (IndexOf(rooms, c) < i + 1) == (IndexOf(rooms, c) < i)
    ensures forall d :: OpenedToward(g0, rooms, i + 1, c, d) == OpenedToward(g0, rooms, i, c, d)
    ensures forall d :: (SecretFrom(g0, rooms, i + 1, c, d) ==
      if d == m then AcceptedAt(g0, rooms, i, c) else SecretFrom(g0, rooms, i, c, d))
    ensures !SecretFrom(g0, rooms, i, c, m)
  {
    forall d
      ensures OpenedToward(g0, rooms, i + 1, c, d) == OpenedToward(g0, rooms, i, c, d)
      ensures SecretFrom(g0, rooms, i + 1, c, d) ==
        if d == m then AcceptedAt(g0, rooms, i, c) else SecretFrom(g0, rooms, i, c, d)
    {
      OpenedTowardStep(g0, rooms, i, c, d);
      SecretFromStep(g0, rooms, i, c, m, d);
    }
    SecretFromStep(g0, rooms, i, c, m, m);
  }

  /**
   * Wiring the i-th room gives its neighbour `c`, from which the room lies in direction `m`, the
   * secret door back exactly when `c` is accepted.
   */
  lemma WireNeighbourTile(g0: map<Pos, Tile>, rooms: seq<Pos>, i: nat, c: Pos, m: Dir, before: Tile, open: bool)
    requires i < |rooms| && IndexOf(rooms, rooms[i]) == i && c != rooms[i] && c in g0
    requires Step(c, m) == rooms[i] && forall d :: d != m ==> Step(c, d) != rooms[i]
    requires before == WiredGridTile(g0, rooms, i, c)
    requires open == AcceptedAt(g0, rooms, i, c)
    ensures (if open then WithSecretDoor(before, m) else before) == WiredGridTile(g0, rooms, i + 1, c)
  {
    NeighbourFlagsStep(g0, rooms, i, c, m);
    var wired := IndexOf(rooms, c) < i;
    var ou, or := OpenedToward(g0, rooms, i, c, Up), OpenedToward(g0, rooms, i, c, Right);
    var ob, ol := OpenedToward(g0, rooms, i, c, Bottom), OpenedToward(g0, rooms, i, c, Left);
    var su, sr := SecretFrom(g0, rooms, i, c, Up), SecretFrom(g0, rooms, i, c, Right);
    var sb, sl := SecretFrom(g0, rooms, i, c, Bottom), SecretFrom(g0, rooms, i, c, Left);
    var su', sr' := SecretFrom(g0, rooms, i + 1, c, Up), SecretFrom(g0, rooms, i + 1, c, Right);
    var sb', sl' := SecretFrom(g0, rooms, i + 1, c, Bottom), SecretFrom(g0, rooms, i + 1, c, Left);
    WiredGridTileIs(g0, rooms, i, c, wired, ou, or, ob, ol, su, sr, sb, sl);
    WiredGridTileIs(g0, rooms, i + 1, c, wired, ou, or, ob, ol, su', sr', sb', sl');
    SecretDoorIf(g0[c], wired, ou, or, ob, ol, su, sr, sb, sl, m, open, su', sr', sb', sl');
  }

  /** A secret door opened when `open`, in a direction `m` that had none from the loop, is one more flag of WiredTileWith. */
  lemma SecretDoorIf(t: Tile, wired: bool, ou: bool, or: bool, ob: bool, ol: bool,
                     su: bool, sr: bool, sb: bool, sl: bool, m: Dir, open: bool,
                     su': bool, sr': bool, sb': bool, sl': bool)
    requires su' == if m == Up then open else su
    requires sr' == if m == Right then open else sr
    requires sb' == if m == Bottom then open else sb
    requires sl' == if m == Left then open else sl
    requires m == Up ==> !su
    requires m == Right ==> !sr
    requires m == Bottom ==> !sb
    requires m == Left ==> !sl
    ensures var before := WiredTileWith(t, wired, ou, or, ob, ol, su, sr, sb, sl);
      (if open then WithSecretDoor(before, m) else before) == WiredTileWith(t, wired, ou, or, ob, ol, su', sr', sb', sl')
  {
    if open {
      SecretDoorWith(t, wired, ou, or, ob, ol, su, sr, sb, sl, m);
    }
  }

  /** Wiring the i-th room leaves a tile that is neither the room nor one of its neighbours as it was. */
  lemma WireOtherTile(g0: map<Pos, Tile>, rooms: seq<Pos>, i: nat, c: Pos)
    requires i < |rooms| && NoDup(rooms) && c in g0 && c != rooms[i]
    requires Step(rooms[i], Up) != c && Step(rooms[i], Right) != c && Step(rooms[i], Bottom) != c && Step(rooms[i], Left) != c
    ensures WiredGridTile(g0, rooms, i + 1, c) == WiredGridTile(g0, rooms, i, c)
  {
    IndexOfNoDup(rooms, i);
    var q := rooms[i];
    assert IndexOf(rooms, c) < i + 1 <==> IndexOf(rooms, c) < i;
    forall d
      ensures OpenedToward(g0, rooms, i + 1, c, d) == OpenedToward(g0, rooms, i, c, d)
      ensures SecretFrom(g0, rooms, i + 1, c, d) == SecretFrom(g0, rooms, i, c, d)
    {
      assert Step(Step(c, d), Mirror(d)) == c;
    }
  }

  /**
   * The tile at `c` once the wiring loop of map_find_secret_rooms has wired the first `i` rooms
   * of `rooms`, starting from the grid `g0`, one room at a time: the room becomes ROOM_SECRET and
   * opens a door towards each neighbour whose type is_valid_secret_neighbours accepts at that
   * turn (Accepts); that neighbour gets the secret door back.
   */
  ghost function WiredCell(g0: map<Pos, Tile>, rooms: seq<Pos>, i: nat, c: Pos): Tile
    requires c in g0 && i <= |rooms|
    decreases i, 0
  {
    if i == 0 then g0[c]
    else
      var q, before := rooms[i - 1], WiredCell(g0, rooms, i - 1, c);
      if c == q then
        WiredTile(before, Secret, Accepts(g0, rooms, i - 1, Step(q, Up)), Accepts(g0, rooms, i - 1, Step(q, Right)),
          Accepts(g0, rooms, i - 1, Step(q, Bottom)), Accepts(g0, rooms, i - 1, Step(q, Left)))
      else if c == Step(q, Up) then (if IsValidSecretNeighbour(before.kind) then WithSecretDoor(before, Bottom) else before)
      else if c == Step(q, Right) then (if IsValidSecretNeighbour(before.kind) then WithSecretDoor(before, Left) else before)
      else if c == Step(q, Bottom) then (if IsValidSecretNeighbour(before.kind) then WithSecretDoor(before, Up) else before)
      else if c == Step(q, Left) then (if IsValidSecretNeighbour(before.kind) then WithSecretDoor(before, Right) else before)
      else before
  }

  /** is_valid_secret_neighbours for `n` when the k-th room is wired: the type `n` has after k rooms. */
  ghost predicate Accepts(g0: map<Pos, Tile>, rooms: seq<Pos>, k: nat, n: Pos)
    requires k <= |rooms|
    decreases k, 1
  {
    n in g0 && IsValidSecretNeighbour(WiredCell(g0, rooms, k, n).kind)
  }

  /**
   * When no room is listed twice, the loop's grid has the closed form WiredGridTile: each listed
   * room is ROOM_SECRET with one more door per neighbour accepted at its turn, and each tile has
   * one more secret door per listed neighbour that accepted it.
   */
  lemma {:induction false} WiredCellClosedForm(g0: map<Pos, Tile>, rooms: seq<Pos>, i: nat, c: Pos)
    requires c in g0 && i <= |rooms| && NoDup(rooms)
    ensures WiredCell(g0, rooms, i, c) == WiredGridTile(g0, rooms, i, c)
    decreases i, 0
  {
    if i == 0 {
      WiredGridStart(g0, rooms, c);
    } else {
      var j, q := i - 1, rooms[i - 1];
      WiredCellClosedForm(g0, rooms, j, c);
      if c == q {
        AcceptsClosedForm(g0, rooms, j, Step(q, Up));
        AcceptsClosedForm(g0, rooms, j, Step(q, Right));
        AcceptsClosedForm(g0, rooms, j, Step(q, Bottom));
        AcceptsClosedForm(g0, rooms, j, Step(q, Left));
        WiredCellRoomStep(g0, rooms, j);
      } else if c == Step(q, Up) || c == Step(q, Right) || c == Step(q, Bottom) || c == Step(q, Left) {
        AcceptsClosedForm(g0, rooms, j, c);
        WiredCellNeighbourStep(g0, rooms, j, c);
      } else {
        WiredCellOtherStep(g0, rooms, j, c);
      }
    }
  }

  /** The closed form carries over the wiring of the j-th room, for that room. */
  lemma WiredCellRoomStep(g0: map<Pos, Tile>, rooms: seq<Pos>, j: nat)
    requires j < |rooms| && NoDup(rooms) && rooms[j] in g0
    requires WiredCell(g0, rooms, j, rooms[j]) == WiredGridTile(g0, rooms, j, rooms[j])
    requires Accepts(g0, rooms, j, Step(rooms[j], Up)) == AcceptedAt(g0, rooms, j, Step(rooms[j], Up))
    requires Accepts(g0, rooms, j, Step(rooms[j], Right)) == AcceptedAt(g0, rooms, j, Step(rooms[j], Right))
    requires Accepts(g0, rooms, j, Step(rooms[j], Bottom)) == AcceptedAt(g0, rooms, j, Step(rooms[j], Bottom))
    requires Accepts(g0, rooms, j, Step(rooms[j], Left)) == AcceptedAt(g0, rooms, j, Step(rooms[j], Left))
    ensures WiredCell(g0, rooms, j + 1, rooms[j]) == WiredGridTile(g0, rooms, j + 1, rooms[j])
  {
    var q := rooms[j];
    IndexOfNoDup(rooms, j);
    WireRoomTile(g0, rooms, j, WiredGridTile(g0, rooms, j, q),
      AcceptedAt(g0, rooms, j, Step(q, Up)), AcceptedAt(g0, rooms, j, Step(q, Right)),
      AcceptedAt(g0, rooms, j, Step(q, Bottom)), AcceptedAt(g0, rooms, j, Step(q, Left)));
  }

  /** The closed form carries over the wiring of the j-th room, for a neighbour `c` of it. */
  lemma WiredCellNeighbourStep(g0: map<Pos, Tile>, rooms: seq<Pos>, j: nat, c: Pos)
    requires j < |rooms| && NoDup(rooms) && c in g0
    requires c == Step(rooms[j], Up) || c == Step(rooms[j], Right) || c == Step(rooms[j], Bottom) || c == Step(rooms[j], Left)
    requires WiredCell(g0, rooms, j, c) == WiredGridTile(g0, rooms, j, c)
    requires Accepts(g0, rooms, j, c) == AcceptedAt(g0, rooms, j, c)
    ensures WiredCell(g0, rooms, j + 1, c) == WiredGridTile(g0, rooms, j + 1, c)
  {
    var q := rooms[j];
    IndexOfNoDup(rooms, j);
    var e := if c == Step(q, Up) then Up else if c == Step(q, Right) then Right else if c == Step(q, Bottom) then Bottom else Left;
    StepBack(q, e);
    WireNeighbourTile(g0, rooms, j, c, Mirror(e), WiredGridTile(g0, rooms, j, c), AcceptedAt(g0, rooms, j, c));
  }

  /** The closed form carries over the wiring of the j-th room, for a tile away from it. */
  lemma WiredCellOtherStep(g0: map<Pos, Tile>, rooms: seq<Pos>, j: nat, c: Pos)
    requires j < |rooms| && NoDup(rooms) && c in g0 && c != rooms[j]
    requires c != Step(rooms[j], Up) && c != Step(rooms[j], Right) && c != Step(rooms[j], Bottom) && c != Step(rooms[j], Left)
    requires WiredCell(g0, rooms, j, c) == WiredGridTile(g0, rooms, j, c)
    ensures WiredCell(g0, rooms, j + 1, c) == WiredGridTile(g0, rooms, j + 1, c)
  {
    WireOtherTile(g0, rooms, j, c);
  }

  /** With no room listed twice, Accepts is AcceptedAt. */
  lemma {:induction false} AcceptsClosedForm(g0: map<Pos, Tile>, rooms: seq<Pos>, k: nat, n: Pos)
    requires k <= |rooms| && NoDup(rooms)
    ensures Accepts(g0, rooms, k, n) == AcceptedAt(g0, rooms, k, n)
    decreases k, 1
  {
    if n in g0 {
      WiredCellClosedForm(g0, rooms, k, n);
      WiredGridTileKind(g0, rooms, k, n);
    }
  }

  // ---------------------------------------------------------------- super secret room

  /**
   * The test of map_find_super_secret_room: secret chance exactly 1, at most one bordering room,
   * and every bordering room ROOM_NORMAL.
   */
  ghost predicate SuperEligible(tiles: array2<Tile>, q: Pos)
    reads tiles
    requires WellFormed(tiles) && Interior(q)
  {
    Chance(tiles, q) == 1 && CountBorderingRooms(tiles, q) <= 1 && OnlyNormalNeighbours(tiles, q)
  }

  /** super_position_list after the scan of `cands`, starting from `list`. */
  ghost function SuperScan(tiles: array2<Tile>, list: seq<Pos>, cands: seq<Pos>): seq<Pos>
    reads tiles
    requires WellFormed(tiles) && forall k :: 0 <= k < |cands| ==> Interior(cands[k])
  {
    if cands == [] then list
    else
      var l := SuperScan(tiles, list, cands[..|cands| - 1]);
      var q := cands[|cands| - 1];
      if SuperEligible(tiles, q) then AddTileToList(l, q) else l
  }

  /** The super secret positions are the candidates that pass the test, each listed once. */
  lemma {:induction false} SuperScanMembers(tiles: array2<Tile>, list: seq<Pos>, cands: seq<Pos>)
    requires WellFormed(tiles) && forall k :: 0 <= k < |cands| ==> Interior(cands[k])
    ensures NoDup(list) ==> NoDup(SuperScan(tiles, list, cands))
    ensures forall q :: q in SuperScan(tiles, list, cands) <==>
      q in list || exists k :: 0 <= k < |cands| && cands[k] == q && SuperEligible(tiles, q)
  {
    if cands != [] {
      var pre := cands[..|cands| - 1];
      SuperScanMembers(tiles, list, pre);
      assert forall k :: 0 <= k < |pre| ==> pre[k] == cands[k];
    }
  }

  /**
   * A super secret position next to a room has exactly that one neighbouring room, and it is
   * ROOM_NORMAL: the only direction is_valid_secret_neighbours accepts.
   */
  lemma SuperSecretSingleNeighbour(tiles: array2<Tile>, q: Pos, d: Dir)
    requires WellFormed(tiles) && Interior(q) && SuperEligible(tiles, q)
    requires KindAt(tiles, Step(q, d)) != Empty
    ensures KindAt(tiles, Step(q, d)) == Normal
    ensures forall e :: IsValidSecretNeighbour(KindAt(tiles, Step(q, e))) <==> e == d
  {
    InteriorNeighbours(q);
    SingleBorder(tiles, q, d);
  }
}

/**
 * The dungeon generator of main.c: the global grid `map`, its six tile lists and counters as the
 * fields of one object, and each phase of map_generate as a method that updates them in place.
 */
module Dungeon {
  import opened Options
  import opened Tiles
  import opened Lists
  import opened Grid
  import opened DungeonSpec

  /** The tile of the k-th room created by the growth phase: the reset values plus its type, id and doors. */
  predicate GrownTile(t: Tile, q: Pos, k: int)
  {
    t.id == k && t.posX == q.x && t.posY == q.y &&
    t.kind == (if k == 0 then Start else Normal) &&
    t.secretChance == 0 && t.doors == DoorCount(t) &&
    t.secretDoors == 0 && SecretDoorCount(t) == 0
  }

  /** The room `q` that the secret phases turn into a room of type `kind`. */
  datatype Wiring = Wiring(q: Pos, kind: RoomType)

  /** The wiring loop of map_find_secret_rooms after `i` rooms of `rooms`, started on the grid `g0`. */
  datatype WireLoop = WireLoop(rooms: seq<Pos>, i: nat, g0: map<Pos, Tile>)

  /** The neighbour in direction `e` of the room wired in the step after `p`. */
  datatype WireSide = WireSide(p: WireLoop, e: Dir)

  /** is_valid_secret_neighbours, on the grid `g0`, for the neighbour of `q` in direction `d`. */
  ghost predicate OpensIn(g0: map<Pos, Tile>, q: Pos, d: Dir)
    requires (forall c :: c in g0 <==> InGrid(c)) && Interior(q)
  {
    InteriorNeighbours(q);
    IsValidSecretNeighbour(g0[Step(q, d)].kind)
  }

  /** One neighbour check of the growth loop: room i of the queue q0, looking in direction d. */
  datatype Attempt = Attempt(q0: seq<Pos>, i: int, d: Dir)

  class Generator {
    /** `TILE map[GRID_MAX_X][GRID_MAX_Y]` */
    const tiles: array2<Tile>

    var maxRooms: int
    var createdRooms: int
    var maxSecrets: int

    /** rooms_queue_list, end_rooms_list, item_rooms_list, secret_rooms_list, secret_position_list, super_position_list */
    var roomsQueue: seq<Pos>
    var endRooms: seq<Pos>
    var itemRooms: seq<Pos>
    var secretRooms: seq<Pos>
    var secretPositions: seq<Pos>
    var superPositions: seq<Pos>

    /** start_room_tile, boss_room_tile, shop_room_tile, super_secret_room_tile; None is NULL. */
    var startRoom: Option<Pos>
    var bossRoom: Option<Pos>
    var shopRoom: Option<Pos>
    var superSecretRoom: Option<Pos>

    /** The program's globals before the first generation. */
    constructor ()
      ensures WellFormed(tiles) && fresh(tiles)
      ensures maxRooms == 0 && createdRooms == 0 && maxSecrets == 0
      ensures roomsQueue == [] && endRooms == [] && itemRooms == []
      ensures secretRooms == [] && secretPositions == [] && superPositions == []
      ensures startRoom == None && bossRoom == None && shopRoom == None && superSecretRoom == None
    {
      tiles := new Tile[GridMaxX, GridMaxY];
      maxRooms, createdRooms, maxSecrets := 0, 0, 0;
      roomsQueue, endRooms, itemRooms := [], [], [];
      secretRooms, secretPositions, superPositions := [], [], [];
      startRoom, bossRoom, shopRoom, superSecretRoom := None, None, None, None;
    }

    // ---------------------------------------------------------------- reset

    /** map_reset_all: no rooms created, no special rooms, and every tile back to its reset values. */
    method ResetAll()
      requires WellFormed(tiles)
      modifies this`createdRooms, this`startRoom, this`bossRoom, this`shopRoom, this`superSecretRoom, tiles
      ensures createdRooms == 0
      ensures startRoom == None && bossRoom == None && shopRoom == None && superSecretRoom == None
      ensures forall q :: InGrid(q) ==> At(tiles, q) == ResetTile(q.x, q.y)
    {
      var i := 0;
      while i < GridMaxX
        invariant 0 <= i <= GridMaxX
        invariant forall a, b :: 0 <= a < i && 0 <= b < GridMaxY ==> tiles[a, b] == ResetTile(a, b)
      {
        var j := 0;
        while j < GridMaxY
          invariant 0 <= j <= GridMaxY
          invariant forall a, b :: 0 <= a < i && 0 <= b < GridMaxY ==> tiles[a, b] == ResetTile(a, b)
          invariant forall b :: 0 <= b < j ==> tiles[i, b] == ResetTile(i, b)
        {
          tiles[i, j] := ResetTile(i, j);
          j := j + 1;
        }
        i := i + 1;
      }
      createdRooms := 0;
      startRoom, bossRoom, shopRoom, superSecretRoom := None, None, None, None;
    }

    /** map_clear_lists_all: empty the six lists. */
    method ClearListsAll()
      modifies this`roomsQueue, this`endRooms, this`itemRooms, this`secretRooms, this`secretPositions, this`superPositions
      ensures roomsQueue == [] && endRooms == [] && itemRooms == []
      ensures secretRooms == [] && secretPositions == [] && superPositions == []
    {
      roomsQueue, endRooms, itemRooms := [], [], [];
      secretRooms, secretPositions, superPositions := [], [], [];
    }

    // ---------------------------------------------------------------- growth

    /**
     * map_create_room: give the tile its type and the next id, count it, and append it to the
     * queue (map_add_tile_to_list leaves the queue alone if the tile is already queued).
     */
    method CreateRoom(p: Pos, kind: RoomType)
      requires WellFormed(tiles) && InGrid(p)
      modifies this`createdRooms, this`roomsQueue, tiles
      ensures At(tiles, p) == old(At(tiles, p)).(kind := kind, id := old(createdRooms))
      ensures forall q :: InGrid(q) && q != p ==> At(tiles, q) == old(At(tiles, q))
      ensures createdRooms == old(createdRooms) + 1
      ensures roomsQueue == AddTileToList(old(roomsQueue), p)
    {
      tiles[p.x, p.y] := tiles[p.x, p.y].(kind := kind, id := createdRooms);
      createdRooms := createdRooms + 1;
      roomsQueue := AddTileToList(roomsQueue, p);
    }

    /**
     * is_valid_room: the tile must be ROOM_NONE, border at most one room, and the room budget must
     * not be spent; then a fair coin (`random(1) > 0.5` rejects) decides.
     */
    method IsValidRoom(p: Pos) returns (ok: bool)
      requires WellFormed(tiles) && Interior(p)
      ensures ok ==> KindAt(tiles, p) == Empty && CountBorderingRooms(tiles, p) <= 1 && createdRooms < maxRooms
    {
      if KindAt(tiles, p) != Empty {
        return false;
      }
      if CountBorderingRooms(tiles, p) > 1 {
        return false;
      }
      if createdRooms >= maxRooms {
        return false;
      }
      var heads: bool :| true;
      if !heads {
        return false;
      }
      return true;
    }

    /**
     * The queue during and after the growth phase: it starts with the centre tile, has no repeats,
     * never outgrows max_rooms (at most 8 for level 1), counts as many rooms as created_rooms, and
     * its k-th room lies at most k steps from the centre.
     */
    ghost predicate GrownQueue()
      reads this
    {
      WellFormed(tiles) &&
      1 <= |roomsQueue| == createdRooms <= maxRooms <= 8 &&
      roomsQueue[0] == Centre && NoDup(roomsQueue) &&
      (forall k :: 0 <= k < |roomsQueue| ==> Dist(roomsQueue[k]) <= k && InGrid(roomsQueue[k]))
    }

    /**
     * The tiles during the growth phase: room k has id k, is START (k = 0) or NORMAL and has as
     * many `doors` as door flags; every other tile still has its reset values.
     */
    ghost predicate GrownCells()
      reads this, tiles
      requires GrownQueue()
    {
      (forall k :: 0 <= k < |roomsQueue| ==> GrownTile(At(tiles, roomsQueue[k]), roomsQueue[k], k)) &&
      (forall q :: InGrid(q) && q !in roomsQueue ==> At(tiles, q) == ResetTile(q.x, q.y))
    }

    /** Every room has a door towards exactly those neighbours that are rooms. */
    ghost predicate GrownDoors()
      reads this, tiles
      requires GrownQueue()
    {
      forall k, d :: 0 <= k < |roomsQueue| ==>
        (Door(At(tiles, roomsQueue[k]), d) <==> Step(roomsQueue[k], d) in roomsQueue)
    }

    ghost predicate Grown()
      reads this, tiles
    {
      GrownQueue() && GrownCells() && GrownDoors()
    }

    /** The queue holds exactly the tiles that are not ROOM_NONE. */
    lemma GrownRoomsOccupied()
      requires Grown()
      ensures forall q :: InGrid(q) ==> (KindAt(tiles, q) != Empty <==> q in roomsQueue)
    {
      forall q | InGrid(q) && q in roomsQueue
        ensures KindAt(tiles, q) != Empty
      {
        var k :| 0 <= k < |roomsQueue| && roomsQueue[k] == q;
      }
    }

    /**
     * The writes of one accepted growth step, from the old state to the current one: the tile n in
     * direction `d` of p is queued as a NORMAL room with the next id and a door back to p, p has a
     * door towards n, and no other tile changed.
     */
    twostate predicate Placed(p: Pos, d: Dir)
      reads this, tiles
    {
      WellFormed(tiles) && InGrid(p) && InGrid(Step(p, d)) &&
      roomsQueue == AddTileToList(old(roomsQueue), Step(p, d)) && createdRooms == old(createdRooms) + 1 &&
      At(tiles, Step(p, d)) == WithDoor(old(At(tiles, Step(p, d))).(kind := Normal, id := old(createdRooms)), Mirror(d)) &&
      At(tiles, p) == WithDoor(old(At(tiles, p)), d) &&
      (forall q :: InGrid(q) && q != Step(p, d) && q != p ==> At(tiles, q) == old(At(tiles, q)))
    }

    /**
     * One accepted growth step: from a grown state whose queue is q0, the tile n in direction `d`
     * of room i, which was not a room and bordered no room but room i, has been placed.
     */
    twostate predicate GrowthStep(a: Attempt)
      reads this, tiles
    {
      old(Grown()) && old(roomsQueue) == a.q0 && 0 <= a.i < |a.q0| &&
      Step(a.q0[a.i], a.d) !in a.q0 &&
      (forall e :: e != Mirror(a.d) ==> Step(Step(a.q0[a.i], a.d), e) !in a.q0) &&
      |a.q0| < maxRooms == old(maxRooms) && Placed(a.q0[a.i], a.d)
    }

    twostate lemma GrowthStepQueue(a: Attempt)
      requires GrowthStep(a)
      ensures GrownQueue()
    {
      var q0, i, d := a.q0, a.i, a.d;
      StepDist(q0[i], d);
      assert roomsQueue == q0 + [Step(q0[i], d)];
    }

    twostate lemma GrowthStepCells(a: Attempt)
      requires GrowthStep(a) && GrownQueue()
      ensures GrownCells()
    {
      var q0, i, d := a.q0, a.i, a.d;
      var p, n := q0[i], Step(q0[i], d);
      assert old(At(tiles, n)) == ResetTile(n.x, n.y);
      OpenDoorKeepsCount(ResetTile(n.x, n.y).(kind := Normal, id := |q0|), Mirror(d));
      assert !Door(old(At(tiles, p)), d) by {
        assert old(Door(At(tiles, roomsQueue[i]), d) <==> Step(roomsQueue[i], d) in roomsQueue);
      }
      OpenDoorKeepsCount(old(At(tiles, p)), d);
      assert GrownTile(At(tiles, n), n, |q0|);
      assert GrownTile(At(tiles, p), p, i) by {
        assert old(GrownTile(At(tiles, roomsQueue[i]), roomsQueue[i], i));
      }
      forall k | 0 <= k < |q0| && k != i
        ensures GrownTile(At(tiles, q0[k]), q0[k], k)
      {
        assert old(GrownTile(At(tiles, roomsQueue[k]), roomsQueue[k], k));
      }
    }

    twostate lemma GrowthStepDoors(a: Attempt)
      requires GrowthStep(a) && GrownQueue()
      ensures GrownDoors()
    {
      var q0, i, d := a.q0, a.i, a.d;
      var p, n := q0[i], Step(q0[i], d);
      MirrorInjective();
      assert old(At(tiles, n)) == ResetTile(n.x, n.y);
      forall k, e | 0 <= k < |roomsQueue|
        ensures Door(At(tiles, roomsQueue[k]), e) <==> Step(roomsQueue[k], e) in roomsQueue
      {
        var q := roomsQueue[k];
        assert Step(Step(q, e), Mirror(e)) == q;
        if k == |q0| {
          assert q == n && Step(n, e) != n && Step(n, Mirror(d)) == p;
        } else {
          assert q == q0[k];
          assert old(Door(At(tiles, roomsQueue[k]), e) <==> Step(roomsQueue[k], e) in roomsQueue);
          if q == p {
            StepInjective(p, d, e);
          } else {
            assert Step(q, e) != n;
          }
        }
      }
    }

    /** The writes of the accepted branch of one neighbour check: map_create_room, then the mirrored pair of doors. */
    method PlaceRoom(p: Pos, d: Dir)
      requires WellFormed(tiles) && InGrid(p) && InGrid(Step(p, d))
      modifies this`createdRooms, this`roomsQueue, tiles
      ensures Placed(p, d)
    {
      var n := Step(p, d);
      CreateRoom(n, Normal);
      tiles[n.x, n.y] := WithDoor(tiles[n.x, n.y], Mirror(d));
      tiles[p.x, p.y] := WithDoor(tiles[p.x, p.y], d);
    }

    /**
     * The accepted branch of one neighbour check: the tile in direction `d` of room i, which is
     * not a room and borders no room but room i, becomes the next room of the queue.
     */
    method GrowRoom(i: int, d: Dir)
      requires Grown() && 0 <= i < |roomsQueue| < maxRooms
      requires InGrid(Step(roomsQueue[i], d)) && Step(roomsQueue[i], d) !in roomsQueue
      requires forall e :: e != Mirror(d) ==> Step(Step(roomsQueue[i], d), e) !in roomsQueue
      modifies this`createdRooms, this`roomsQueue, tiles
      ensures Grown() && roomsQueue == old(roomsQueue) + [Step(old(roomsQueue)[i], d)]
    {
      ghost var a := Attempt(roomsQueue, i, d);
      PlaceRoom(roomsQueue[i], d);
      assert GrowthStep(a);
      GrowthStepQueue(a);
      GrowthStepCells(a);
      GrowthStepDoors(a);
    }

    /**
     * One neighbour check of the growth loop of map_generate: if is_valid_room accepts the tile in
     * direction `d` of room i, create a NORMAL room there and open the mirrored pair of doors
     * between the two (both `doors` counters incremented).
     */
    method GrowToward(i: int, d: Dir)
      requires Grown() && 0 <= i < |roomsQueue|
      modifies this`createdRooms, this`roomsQueue, tiles
      ensures Grown() && old(roomsQueue) <= roomsQueue
      ensures roomsQueue == old(roomsQueue) ||
        (roomsQueue == old(roomsQueue) + [Step(old(roomsQueue)[i], d)] &&
         old(KindAt(tiles, Step(roomsQueue[i], d))) == Empty &&
         old(CountBorderingRooms(tiles, Step(roomsQueue[i], d))) <= 1)
    {
      var p := roomsQueue[i];
      var n := Step(p, d);
      StepDist(p, d);
      NearCentre(p);
      NearCentre(n);
      var ok := IsValidRoom(n);
      if ok {
        GrownRoomsOccupied();
        SingleBorder(tiles, n, Mirror(d));
        GrowRoom(i, d);
      }
    }

    /**
     * The start of the growth phase of map_generate: map_get_starting_room is the centre tile
     * map[16][16], which map_create_room turns into the START room with id 0 as the first entry of
     * the queue; start_room_tile points at it.
     */
    method PlaceStart()
      requires WellFormed(tiles) && createdRooms == 0 && roomsQueue == [] && 1 <= maxRooms <= 8
      requires forall q :: InGrid(q) ==> At(tiles, q) == ResetTile(q.x, q.y)
      modifies this`createdRooms, this`roomsQueue, this`startRoom, tiles
      ensures Grown() && roomsQueue == [Centre] && startRoom == Some(Centre)
      ensures KindAt(tiles, Centre) == Start
    {
      CreateRoom(Centre, Start);
      startRoom := Some(Centre);
    }

    /**
     * The growth loop of map_generate: every room of the queue, including those appended during
     * the scan, tries its up, right, bottom and left neighbour in turn. The queue only grows, and
     * every room added was an empty tile bordering no room but its parent when it was added.
     */
    method GrowRooms()
      requires Grown()
      modifies this`createdRooms, this`roomsQueue, tiles
      ensures Grown() && old(roomsQueue) <= roomsQueue
    {
      var i := 0;
      while i < |roomsQueue|
        invariant Grown() && 0 <= i <= |roomsQueue| && old(roomsQueue) <= roomsQueue
        decreases maxRooms - i
      {
        ExpandRoom(i);
        i := i + 1;
      }
    }

    /** One iteration of the growth loop: room i tries its four neighbours. */
    method ExpandRoom(i: int)
      requires Grown() && 0 <= i < |roomsQueue|
      modifies this`createdRooms, this`roomsQueue, tiles
      ensures Grown() && old(roomsQueue) <= roomsQueue
    {
      GrowToward(i, Up);
      GrowToward(i, Right);
      GrowToward(i, Bottom);
      GrowToward(i, Left);
    }

    // ---------------------------------------------------------------- after growth

    /**
     * The grid once growth is over: the queue holds each room once, within 7 steps of the centre,
     * the occupied tiles are exactly the queued ones, and no tile has a secret chance yet.
     */
    ghost predicate Settled()
      reads this`roomsQueue, tiles
    {
      WellFormed(tiles) && NoDup(roomsQueue) &&
      (forall k :: 0 <= k < |roomsQueue| ==> Dist(roomsQueue[k]) <= 7) &&
      (forall q :: InGrid(q) ==> (KindAt(tiles, q) != Empty <==> q in roomsQueue)) &&
      (forall q :: InGrid(q) ==> At(tiles, q).secretChance == 0)
    }

    lemma GrownSettled()
      requires Grown()
      ensures Settled()
    {
      GrownRoomsOccupied();
      forall q | InGrid(q) && q in roomsQueue
        ensures At(tiles, q).secretChance == 0
      {
        var k :| 0 <= k < |roomsQueue| && roomsQueue[k] == q;
      }
    }

    /** The queued rooms of a settled grid lie inside the border, with their neighbours on the grid. */
    lemma SettledInterior()
      requires Settled()
      ensures forall k :: 0 <= k < |roomsQueue| ==> Interior(roomsQueue[k])
      ensures forall q :: q in roomsQueue ==> Dist(q) <= 7 && Interior(q)
    {
      forall k | 0 <= k < |roomsQueue|
        ensures Interior(roomsQueue[k])
      {
        NearCentre(roomsQueue[k]);
      }
    }

    /** Changing only the types of queued rooms, to types other than ROOM_NONE, keeps the grid settled. */
    twostate lemma SettledKept()
      requires old(Settled()) && roomsQueue == old(roomsQueue) && WellFormed(tiles)
      requires forall q :: InGrid(q) ==>
        At(tiles, q) == old(At(tiles, q)) ||
        (q in roomsQueue && KindAt(tiles, q) != Empty && At(tiles, q) == old(At(tiles, q)).(kind := KindAt(tiles, q)))
      ensures Settled()
    {
    }

    /** `tile->type = kind` for the tile at `q`. */
    method SetKind(q: Pos, kind: RoomType)
      requires WellFormed(tiles) && InGrid(q)
      modifies tiles
      ensures At(tiles, q) == old(At(tiles, q)).(kind := kind)
      ensures forall r :: InGrid(r) && r != q ==> At(tiles, r) == old(At(tiles, r))
    {
      tiles[q.x, q.y] := tiles[q.x, q.y].(kind := kind);
    }

    // ---------------------------------------------------------------- end, boss, shop and item rooms

    /**
     * map_find_end_rooms: scan the queue and list every ROOM_NORMAL room with at most one door that
     * borders at most one room; the phase succeeds when at least 3 were found.
     */
    method FindEndRooms() returns (ok: bool)
      requires WellFormed(tiles) && forall k :: 0 <= k < |roomsQueue| ==> Interior(roomsQueue[k])
      modifies this`endRooms
      ensures endRooms == EndRoomsScan(tiles, old(endRooms), roomsQueue)
      ensures ok <==> |endRooms| >= 3
    {
      var i := 0;
      while i < |roomsQueue|
        invariant 0 <= i <= |roomsQueue|
        invariant endRooms == EndRoomsScan(tiles, old(endRooms), roomsQueue[..i])
      {
        var q := roomsQueue[i];
        assert roomsQueue[..i + 1][..i] == roomsQueue[..i];
        if KindAt(tiles, q) != Normal {
        } else if At(tiles, q).doors > 1 {
        } else if CountBorderingRooms(tiles, q) <= 1 {
          endRooms := AddTileToList(endRooms, q);
        }
        i := i + 1;
      }
      assert roomsQueue[..i] == roomsQueue;
      ok := |endRooms| >= 3;
    }

    /**
     * map_find_boss_room: the first end room strictly farther from the start room than every end
     * room before it and at least as far as every end room becomes ROOM_BOSS; when no end room is
     * farther than 0 nothing changes. The phase succeeds when boss_room_tile is set.
     */
    method FindBossRoom() returns (ok: bool)
      requires WellFormed(tiles) && forall k :: 0 <= k < |endRooms| ==> InGrid(endRooms[k])
      modifies this`bossRoom, tiles
      ensures FarthestIndex(endRooms, Centre) == -1 ==>
        bossRoom == old(bossRoom) && forall q :: InGrid(q) ==> At(tiles, q) == old(At(tiles, q))
      ensures FarthestIndex(endRooms, Centre) != -1 ==>
        var b := endRooms[FarthestIndex(endRooms, Centre)];
        bossRoom == Some(b) && At(tiles, b) == old(At(tiles, b)).(kind := Boss) &&
        forall q :: InGrid(q) && q != b ==> At(tiles, q) == old(At(tiles, q))
      ensures ok <==> bossRoom.Some?
    {
      var found: Option<Pos> := None;
      var farthest := 0;
      ghost var j := -1;
      for i := 0 to |endRooms|
        invariant j == FarthestIndex(endRooms[..i], Centre)
        invariant found == if j == -1 then None else Some(endRooms[j])
        invariant farthest == if j == -1 then 0 else SqDist(endRooms[j], Centre)
      {
        assert endRooms[..i + 1][..i] == endRooms[..i];
        var distance := SqDist(endRooms[i], Centre);
        if distance > farthest {
          found, farthest, j := Some(endRooms[i]), distance, i;
        }
      }
      assert endRooms[..|endRooms|] == endRooms;
      if found.Some? {
        SetKind(found.value, Boss);
        bossRoom := found;
      }
      ok := bossRoom.Some?;
    }

    /**
     * map_find_shop_room: while no shop is set, a random end room other than the boss room becomes
     * ROOM_SHOP. The random draws that hit the boss room are repeated, so only the accepted draw is
     * modelled; the source never returns without one.
     */
    method FindShopRoom() returns (ok: bool)
      requires WellFormed(tiles) && forall k :: 0 <= k < |endRooms| ==> InGrid(endRooms[k])
      requires shopRoom == None ==> exists k :: 0 <= k < |endRooms| && Some(endRooms[k]) != bossRoom
      modifies this`shopRoom, tiles
      ensures ok && shopRoom.Some?
      ensures old(shopRoom).Some? ==>
        shopRoom == old(shopRoom) && forall q :: InGrid(q) ==> At(tiles, q) == old(At(tiles, q))
      ensures old(shopRoom) == None ==>
        var s := shopRoom.value;
        s in endRooms && shopRoom != bossRoom && At(tiles, s) == old(At(tiles, s)).(kind := Shop) &&
        forall q :: InGrid(q) && q != s ==> At(tiles, q) == old(At(tiles, q))
    {
      if shopRoom == None {
        var index :| 0 <= index < |endRooms| && Some(endRooms[index]) != bossRoom;
        SetKind(endRooms[index], Shop);
        shopRoom := Some(endRooms[index]);
      }
      ok := shopRoom.Some?;
    }

    /**
     * map_find_item_rooms: every end room that is neither the boss nor the shop room becomes
     * ROOM_ITEM and is listed; the phase succeeds when the count is the end room count minus 2.
     */
    method FindItemRooms() returns (ok: bool)
      requires WellFormed(tiles) && forall k :: 0 <= k < |endRooms| ==> InGrid(endRooms[k])
      modifies this`itemRooms, tiles
      ensures itemRooms == ItemRoomsScan(old(itemRooms), endRooms, bossRoom, shopRoom)
      ensures forall q :: InGrid(q) ==>
        At(tiles, q) == if q in endRooms && Some(q) != bossRoom && Some(q) != shopRoom
                        then old(At(tiles, q)).(kind := Item) else old(At(tiles, q))
      ensures ok <==> |itemRooms| == |endRooms| - 2
    {
      for i := 0 to |endRooms|
        invariant itemRooms == ItemRoomsScan(old(itemRooms), endRooms[..i], bossRoom, shopRoom)
        invariant forall q :: InGrid(q) ==> At(tiles, q) == ItemTile(old(At(tiles, q)), q, endRooms[..i], bossRoom, shopRoom)
      {
        var q := endRooms[i];
        assert endRooms[..i + 1][..i] == endRooms[..i];
        if Some(q) == bossRoom {
        } else if Some(q) == shopRoom {
        } else {
          SetKind(q, Item);
          itemRooms := AddTileToList(itemRooms, q);
        }
        forall c | InGrid(c)
          ensures At(tiles, c) == ItemTile(old(At(tiles, c)), c, endRooms[..i + 1], bossRoom, shopRoom)
        {
          ItemTileStep(old(At(tiles, c)), c, endRooms, i, bossRoom, shopRoom);
        }
      }
      assert endRooms[..|endRooms|] == endRooms;
      ok := |itemRooms| == |endRooms| - 2;
    }

    // ---------------------------------------------------------------- secret chances

    /**
     * What map_calculate_secret_pos_chance relies on: the queue holds each room once, close enough
     * to the centre for its neighbours to lie on the grid, the occupied tiles are the queued ones,
     * no secret chance is negative and secret_position_list has no repeats.
     */
    ghost predicate ChanceReady()
      reads this, tiles
    {
      WellFormed(tiles) && NoDup(roomsQueue) && NoDup(secretPositions) &&
      (forall k :: 0 <= k < |roomsQueue| ==> Dist(roomsQueue[k]) <= 13) &&
      (forall q :: InGrid(q) ==> (KindAt(tiles, q) != Empty <==> q in roomsQueue)) &&
      (forall q :: InGrid(q) ==> At(tiles, q).secretChance >= 0)
    }

    /** is_valid_secret_pos: a ROOM_NONE tile with a positive secret chance that is not listed yet. */
    predicate IsValidSecretPos(q: Pos): (ok: bool)
      reads this, tiles
      requires WellFormed(tiles) && InGrid(q)
      ensures ok ==> AddTileToList(secretPositions, q) == secretPositions + [q]
      ensures !ok ==> KindAt(tiles, q) != Empty || At(tiles, q).secretChance <= 0 || q in secretPositions
    {
      KindAt(tiles, q) == Empty && At(tiles, q).secretChance > 0 && q !in secretPositions
    }

    /**
     * One `if` block of map_calculate_secret_pos_chance: a ROOM_NONE tile gets one more secret
     * chance and, if is_valid_secret_pos accepts it, is listed as a secret position.
     */
    method TouchCell(n: Pos)
      requires WellFormed(tiles) && InGrid(n)
      modifies this`secretPositions, tiles
      ensures secretPositions == ListCell(old(secretPositions), old(At(tiles, n)), n)
      ensures At(tiles, n) == BumpCell(old(At(tiles, n)))
      ensures forall q :: InGrid(q) && q != n ==> At(tiles, q) == old(At(tiles, q))
    {
      if KindAt(tiles, n) == Empty {
        tiles[n.x, n.y] := tiles[n.x, n.y].(secretChance := tiles[n.x, n.y].secretChance + 1);
        if IsValidSecretPos(n) {
          secretPositions := AddTileToList(secretPositions, n);
        }
      }
    }

    /** The four `if` blocks for room `r`, in the order up, right, bottom, left. */
    twostate predicate CellsTouched(r: Pos)
      reads this, tiles
    {
      var nu, nr, nb, nl := Step(r, Up), Step(r, Right), Step(r, Bottom), Step(r, Left);
      WellFormed(tiles) && InGrid(nu) && InGrid(nr) && InGrid(nb) && InGrid(nl) &&
      roomsQueue == old(roomsQueue) &&
      secretPositions == ListCell(ListCell(ListCell(ListCell(old(secretPositions),
        old(At(tiles, nu)), nu), old(At(tiles, nr)), nr), old(At(tiles, nb)), nb), old(At(tiles, nl)), nl) &&
      At(tiles, nu) == BumpCell(old(At(tiles, nu))) && At(tiles, nr) == BumpCell(old(At(tiles, nr))) &&
      At(tiles, nb) == BumpCell(old(At(tiles, nb))) && At(tiles, nl) == BumpCell(old(At(tiles, nl))) &&
      forall q :: InGrid(q) && q != nu && q != nr && q != nb && q != nl ==> At(tiles, q) == old(At(tiles, q))
    }

    method TouchCells(r: Pos)
      requires WellFormed(tiles) && Dist(r) <= 13
      modifies this`secretPositions, tiles
      ensures CellsTouched(r)
    {
      NearCentre(r);
      TouchCell(Step(r, Up));
      TouchCell(Step(r, Right));
      TouchCell(Step(r, Bottom));
      TouchCell(Step(r, Left));
    }

    /** The tiles after room `r`'s neighbours were touched: one more chance next to `r`, off the queue. */
    twostate predicate TilesBumped(r: Pos)
      reads this, tiles
    {
      WellFormed(tiles) && forall q :: InGrid(q) ==>
        At(tiles, q) == if q !in roomsQueue && Adjacent(r, q)
                        then old(At(tiles, q)).(secretChance := old(At(tiles, q)).secretChance + 1)
                        else old(At(tiles, q))
    }

    /**
     * One iteration of map_calculate_secret_pos_chance, for room `r` of the queue: the ROOM_NONE
     * neighbours of `r` gain one secret chance and are listed once.
     */
    twostate predicate RoomTouched(r: Pos)
      reads this, tiles
    {
      ChanceReady() && roomsQueue == old(roomsQueue) &&
      secretPositions == TouchNeighbours(old(secretPositions), r, roomsQueue) &&
      TilesBumped(r)
    }

    /** The list half of one room's touch: the chain of cell updates is TouchNeighbours. */
    twostate lemma CellsListMeaning(r: Pos)
      requires old(ChanceReady()) && Dist(r) <= 13 && CellsTouched(r)
      ensures secretPositions == TouchNeighbours(old(secretPositions), r, roomsQueue)
    {
      NearCentre(r);
      var rooms := roomsQueue;
      var nu, nr, nb, nl := Step(r, Up), Step(r, Right), Step(r, Bottom), Step(r, Left);
      var l0 := old(secretPositions);
      var l1 := ListCell(l0, old(At(tiles, nu)), nu);
      var l2 := ListCell(l1, old(At(tiles, nr)), nr);
      var l3 := ListCell(l2, old(At(tiles, nb)), nb);
      TouchNeighboursUnfold(l0, r, rooms);
      assert l1 == AddIfNotRoom(l0, nu, rooms);
      assert l2 == AddIfNotRoom(l1, nr, rooms);
      assert l3 == AddIfNotRoom(l2, nb, rooms);
      assert secretPositions == AddIfNotRoom(l3, nl, rooms);
    }

    /** The tile half of one room's touch. */
    twostate lemma CellsTilesMeaning(r: Pos)
      requires CellsTouched(r)
      requires forall d :: InGrid(Step(r, d)) && (old(KindAt(tiles, Step(r, d))) != Empty <==> Step(r, d) in roomsQueue)
      ensures TilesBumped(r)
    {
      forall q | InGrid(q)
        ensures At(tiles, q) == if q !in roomsQueue && Adjacent(r, q)
                                then old(At(tiles, q)).(secretChance := old(At(tiles, q)).secretChance + 1)
                                else old(At(tiles, q))
      {
        AdjacentIffStep(r, q);
        if q == Step(r, Up) || q == Step(r, Right) || q == Step(r, Bottom) || q == Step(r, Left) {
          assert Adjacent(r, q);
          assert At(tiles, q) == BumpCell(old(At(tiles, q)));
        } else {
          assert !Adjacent(r, q);
          assert At(tiles, q) == old(At(tiles, q));
        }
      }
    }

    twostate lemma CellsTouchedMeaning(r: Pos)
      requires old(ChanceReady()) && Dist(r) <= 13 && CellsTouched(r)
      ensures RoomTouched(r)
    {
      CellsListMeaning(r);
      NearCentre(r);
      assert forall d :: InGrid(Step(r, d)) && (old(KindAt(tiles, Step(r, d))) != Empty <==> Step(r, d) in roomsQueue);
      CellsTilesMeaning(r);
      TouchNeighboursMembers(old(secretPositions), r, roomsQueue);
    }

    /** One iteration of map_calculate_secret_pos_chance: the four neighbours of room `r`. */
    method TouchRoom(r: Pos)
      requires ChanceReady() && Dist(r) <= 13
      modifies this`secretPositions, tiles
      ensures RoomTouched(r)
    {
      TouchCells(r);
      CellsTouchedMeaning(r);
    }

    /**
     * map_calculate_secret_pos_chance: every ROOM_NONE tile gains one secret chance per queued
     * room it borders, and secret_position_list gains, in first-touch order, the ROOM_NONE tiles
     * next to a queued room.
     */
    method CalculateSecretPosChance()
      requires ChanceReady()
      modifies this`secretPositions, tiles
      ensures ChanceReady()
      ensures secretPositions == SecretCandidates(old(secretPositions), roomsQueue, |roomsQueue|)
      ensures forall q :: InGrid(q) ==> At(tiles, q) == ChanceAfter(old(At(tiles, q)), q, roomsQueue, |roomsQueue|)
    {
      var i := 0;
      while i < |roomsQueue|
        invariant 0 <= i <= |roomsQueue| && ChanceReady()
        invariant secretPositions == SecretCandidates(old(secretPositions), roomsQueue, i)
        invariant forall q :: InGrid(q) ==> At(tiles, q) == ChanceAfter(old(At(tiles, q)), q, roomsQueue, i)
      {
        label before:
        TouchRoom(roomsQueue[i]);
        forall q | InGrid(q)
          ensures At(tiles, q) == ChanceAfter(old(At(tiles, q)), q, roomsQueue, i + 1)
        {
          ChanceAfterStep(old(At(tiles, q)), q, roomsQueue, i);
        }
        i := i + 1;
      }
    }

    // ---------------------------------------------------------------- secret rooms

    /** Every secret position lies inside the border, as every neighbour of a room near the centre does. */
    ghost predicate PositionsInterior()
      reads this
    {
      forall k :: 0 <= k < |secretPositions| ==> Interior(secretPositions[k])
    }

    /**
     * One pass of the selection loop of map_find_secret_rooms: walk secret_position_list, stop
     * once max_secrets rooms are listed, skip the cells between rooms of one kind and those whose
     * chance is not `chance`, and list the others.
     */
    method RunSecretPass(chance: int, ghost ranks: map<Pos, int>)
      requires WellFormed(tiles) && PositionsInterior() && 1 <= chance <= 4
      requires forall q :: q in secretPositions ==> q in ranks && ranks[q] == PassRank(tiles, q)
      modifies this`secretRooms
      ensures secretRooms == RankPass(old(secretRooms), secretPositions, ranks, chance, maxSecrets)
    {
      var k := 0;
      while k < |secretPositions|
        invariant 0 <= k <= |secretPositions|
        invariant RankPass(secretRooms, secretPositions[k..], ranks, chance, maxSecrets) ==
          RankPass(old(secretRooms), secretPositions, ranks, chance, maxSecrets)
      {
        if |secretRooms| >= maxSecrets {
          break;
        }
        var q := secretPositions[k];
        assert secretPositions[k..][1..] == secretPositions[k + 1..];
        assert q in secretPositions;
        var same := RoomAllSameNeighbours(tiles, q);
        if !same && At(tiles, q).secretChance == chance {
          secretRooms := AddTileToList(secretRooms, q);
        }
        k := k + 1;
      }
    }

    /** The four passes of map_find_secret_rooms, for chances 4, 3, 2 and 1, stopping at max_secrets. */
    method SelectSecretRooms()
      requires WellFormed(tiles) && PositionsInterior()
      modifies this`secretRooms
      ensures secretRooms == SecretPasses(tiles, old(secretRooms), secretPositions, maxSecrets, 0)
    {
      ghost var ranks := PassRanks(tiles, secretPositions);
      var i := 0;
      while i < 4
        invariant 0 <= i <= 4
        invariant RankPasses(secretRooms, secretPositions, ranks, maxSecrets, i) ==
          RankPasses(old(secretRooms), secretPositions, ranks, maxSecrets, 0)
      {
        if |secretRooms| >= maxSecrets {
          break;
        }
        ghost var before := secretRooms;
        RunSecretPass(4 - i, ranks);
        assert RankPasses(before, secretPositions, ranks, maxSecrets, i) ==
          RankPasses(secretRooms, secretPositions, ranks, maxSecrets, i + 1);
        i := i + 1;
      }
    }

    /**
     * One `if` block of the wiring: when is_valid_secret_neighbours accepts the neighbour of `q`
     * in direction `d`, the neighbour gets the secret door back towards `q` and `q` a door towards it.
     */
    method OpenSecretPassage(q: Pos, d: Dir)
      requires WellFormed(tiles) && Interior(q)
      modifies tiles
      ensures var n := Step(q, d);
        InGrid(n) &&
        var open := IsValidSecretNeighbour(old(KindAt(tiles, n)));
        At(tiles, n) == (if open then WithSecretDoor(old(At(tiles, n)), Mirror(d)) else old(At(tiles, n))) &&
        At(tiles, q) == WithDoorIf(old(At(tiles, q)), d, open) &&
        forall r :: InGrid(r) && r != q && r != n ==> At(tiles, r) == old(At(tiles, r))
    {
      InteriorNeighbours(q);
      var n := Step(q, d);
      if IsValidSecretNeighbour(KindAt(tiles, n)) {
        tiles[n.x, n.y] := WithSecretDoor(tiles[n.x, n.y], Mirror(d));
        tiles[q.x, q.y] := WithDoor(tiles[q.x, q.y], d);
      }
    }

    /**
     * The room `w.q` after it was wired: it became a room of type `w.kind` with a door in every
     * direction whose neighbour is_valid_secret_neighbours accepted, each such neighbour has the
     * secret door back, and nothing else changed.
     */
    twostate predicate Wired(w: Wiring)
      reads tiles
    {
      var q := w.q;
      var nu, nr, nb, nl := Step(q, Up), Step(q, Right), Step(q, Bottom), Step(q, Left);
      WellFormed(tiles) && Interior(q) && InGrid(nu) && InGrid(nr) && InGrid(nb) && InGrid(nl) &&
      var ou, or, ob, ol := IsValidSecretNeighbour(old(KindAt(tiles, nu))), IsValidSecretNeighbour(old(KindAt(tiles, nr))),
        IsValidSecretNeighbour(old(KindAt(tiles, nb))), IsValidSecretNeighbour(old(KindAt(tiles, nl)));
      At(tiles, q) == WiredTile(old(At(tiles, q)), w.kind, ou, or, ob, ol) &&
      At(tiles, nu) == (if ou then WithSecretDoor(old(At(tiles, nu)), Bottom) else old(At(tiles, nu))) &&
      At(tiles, nr) == (if or then WithSecretDoor(old(At(tiles, nr)), Left) else old(At(tiles, nr))) &&
      At(tiles, nb) == (if ob then WithSecretDoor(old(At(tiles, nb)), Up) else old(At(tiles, nb))) &&
      At(tiles, nl) == (if ol then WithSecretDoor(old(At(tiles, nl)), Right) else old(At(tiles, nl))) &&
      forall r :: InGrid(r) && r != q && r != nu && r != nr && r != nb && r != nl ==> At(tiles, r) == old(At(tiles, r))
    }

    /** Wired without the change of type. */
    twostate predicate NeighboursOpened(q: Pos)
      reads tiles
    {
      var nu, nr, nb, nl := Step(q, Up), Step(q, Right), Step(q, Bottom), Step(q, Left);
      WellFormed(tiles) && Interior(q) && InGrid(nu) && InGrid(nr) && InGrid(nb) && InGrid(nl) &&
      var ou, or, ob, ol := IsValidSecretNeighbour(old(KindAt(tiles, nu))), IsValidSecretNeighbour(old(KindAt(tiles, nr))),
        IsValidSecretNeighbour(old(KindAt(tiles, nb))), IsValidSecretNeighbour(old(KindAt(tiles, nl)));
      At(tiles, q) == WithDoorIf(WithDoorIf(WithDoorIf(WithDoorIf(old(At(tiles, q)), Up, ou), Right, or), Bottom, ob), Left, ol) &&
      At(tiles, nu) == (if ou then WithSecretDoor(old(At(tiles, nu)), Bottom) else old(At(tiles, nu))) &&
      At(tiles, nr) == (if or then WithSecretDoor(old(At(tiles, nr)), Left) else old(At(tiles, nr))) &&
      At(tiles, nb) == (if ob then WithSecretDoor(old(At(tiles, nb)), Up) else old(At(tiles, nb))) &&
      At(tiles, nl) == (if ol then WithSecretDoor(old(At(tiles, nl)), Right) else old(At(tiles, nl))) &&
      forall r :: InGrid(r) && r != q && r != nu && r != nr && r != nb && r != nl ==> At(tiles, r) == old(At(tiles, r))
    }

    method OpenNeighbours(q: Pos)
      requires WellFormed(tiles) && Interior(q)
      modifies tiles
      ensures NeighboursOpened(q)
    {
      InteriorNeighbours(q);
      var nu, nr, nb, nl := Step(q, Up), Step(q, Right), Step(q, Bottom), Step(q, Left);
      assert q != nu && q != nr && q != nb && q != nl;
      assert nu != nr && nu != nb && nu != nl && nr != nb && nr != nl && nb != nl;
      ghost var ou, or := IsValidSecretNeighbour(KindAt(tiles, nu)), IsValidSecretNeighbour(KindAt(tiles, nr));
      ghost var ob, ol := IsValidSecretNeighbour(KindAt(tiles, nb)), IsValidSecretNeighbour(KindAt(tiles, nl));
      OpenSecretPassage(q, Up);
      label up:
      assert At(tiles, q) == WithDoorIf(old(At(tiles, q)), Up, ou);
      OpenSecretPassage(q, Right);
      label right:
      assert At(tiles, q) == WithDoorIf(WithDoorIf(old(At(tiles, q)), Up, ou), Right, or);
      assert At(tiles, nu) == old@up(At(tiles, nu));
      OpenSecretPassage(q, Bottom);
      label bottom:
      assert At(tiles, q) == WithDoorIf(WithDoorIf(WithDoorIf(old(At(tiles, q)), Up, ou), Right, or), Bottom, ob);
      assert At(tiles, nu) == old@up(At(tiles, nu)) && At(tiles, nr) == old@right(At(tiles, nr));
      OpenSecretPassage(q, Left);
      assert At(tiles, nu) == old@up(At(tiles, nu)) && At(tiles, nr) == old@right(At(tiles, nr));
      assert At(tiles, nb) == old@bottom(At(tiles, nb));
    }

    /**
     * The body shared by map_find_secret_rooms and map_find_super_secret_room for one room: set
     * its type, then try the up, right, bottom and left neighbour in turn.
     */
    method WireRoom(q: Pos, kind: RoomType)
      requires WellFormed(tiles) && Interior(q)
      modifies tiles
      ensures Wired(Wiring(q, kind))
    {
      InteriorNeighbours(q);
      var nu, nr, nb, nl := Step(q, Up), Step(q, Right), Step(q, Bottom), Step(q, Left);
      assert q != nu && q != nr && q != nb && q != nl;
      SetKind(q, kind);
      label typed:
      assert old@typed(KindAt(tiles, nu)) == old(KindAt(tiles, nu)) && old@typed(KindAt(tiles, nr)) == old(KindAt(tiles, nr));
      assert old@typed(KindAt(tiles, nb)) == old(KindAt(tiles, nb)) && old@typed(KindAt(tiles, nl)) == old(KindAt(tiles, nl));
      OpenNeighbours(q);
    }

    /** Door and secret-door flags are only ever set, never cleared. */
    twostate predicate FlagsKept()
      reads tiles
    {
      WellFormed(tiles) &&
      forall c, d :: InGrid(c) ==>
        (Door(old(At(tiles, c)), d) ==> Door(At(tiles, c), d)) &&
        (SecretDoor(old(At(tiles, c)), d) ==> SecretDoor(At(tiles, c), d))
    }

    /** Only the type of `w.q` changed, to `w.kind`. */
    twostate predicate KindSet(w: Wiring)
      reads tiles
    {
      WellFormed(tiles) && forall c :: InGrid(c) ==> KindAt(tiles, c) == if c == w.q then w.kind else old(KindAt(tiles, c))
    }

    /** Only `w.q` and its neighbours changed. */
    twostate predicate OnlyNear(w: Wiring)
      reads tiles
    {
      WellFormed(tiles) && forall c :: InGrid(c) && c != w.q && !Adjacent(w.q, c) ==> At(tiles, c) == old(At(tiles, c))
    }

    /** `w.q` has a door, and its neighbour the secret door back, wherever the neighbour was a valid secret neighbour. */
    twostate predicate DoorsOpened(w: Wiring)
      reads tiles
    {
      WellFormed(tiles) && Interior(w.q) && forall d :: old(ValidToward(tiles, w.q, d)) ==> DoorPair(tiles, w.q, d)
    }

    twostate lemma WiredKeeps(w: Wiring)
      requires Wired(w)
      ensures KindSet(w)
    {
      var q := w.q;
      WiredTileDoors(old(At(tiles, q)), w.kind, old(ValidToward(tiles, q, Up)), old(ValidToward(tiles, q, Right)),
        old(ValidToward(tiles, q, Bottom)), old(ValidToward(tiles, q, Left)));
    }

    twostate lemma WiredNear(w: Wiring)
      requires Wired(w)
      ensures OnlyNear(w)
    {
    }

    twostate lemma WiredFlags(w: Wiring)
      requires Wired(w)
      ensures FlagsKept()
    {
      var q := w.q;
      WiredTileDoors(old(At(tiles, q)), w.kind, old(ValidToward(tiles, q, Up)), old(ValidToward(tiles, q, Right)),
        old(ValidToward(tiles, q, Bottom)), old(ValidToward(tiles, q, Left)));
      forall c, d | InGrid(c)
        ensures (Door(old(At(tiles, c)), d) ==> Door(At(tiles, c), d)) &&
          (SecretDoor(old(At(tiles, c)), d) ==> SecretDoor(At(tiles, c), d))
      {
        if c == q {
        } else if c == Step(q, Up) || c == Step(q, Right) || c == Step(q, Bottom) || c == Step(q, Left) {
        } else {
        }
      }
    }

    twostate lemma WiredOpens(w: Wiring)
      requires Wired(w)
      ensures DoorsOpened(w)
    {
      var q := w.q;
      var t := old(At(tiles, q));
      WiredTileDoors(t, w.kind, old(ValidToward(tiles, q, Up)), old(ValidToward(tiles, q, Right)),
        old(ValidToward(tiles, q, Bottom)), old(ValidToward(tiles, q, Left)));
      forall d | old(ValidToward(tiles, q, d))
        ensures DoorPair(tiles, q, d)
      {
        match d
        case Up =>
        case Right =>
        case Bottom =>
        case Left =>
      }
    }

    /**
     * The wiring loop after `p.i` rooms: those rooms are ROOM_SECRET, each has a door wherever
     * its neighbour was a valid secret neighbour on the starting grid, with the secret door back,
     * and only those rooms and their neighbours differ from the starting grid.
     */
    ghost predicate WiredUpTo(p: WireLoop)
      reads this, tiles
    {
      WireLoopShape(p) && WiredKinds(p) && WiredDoors(p) && WiredFrame(p) && WiredTiles(p)
    }

    ghost predicate WireLoopShape(p: WireLoop)
      reads this
    {
      WellFormed(tiles) && p.i <= |p.rooms| && (forall k :: 0 <= k < |p.rooms| ==> Interior(p.rooms[k])) &&
      (forall c :: c in p.g0 <==> InGrid(c))
    }

    ghost predicate WiredKinds(p: WireLoop)
      reads this, tiles
      requires WireLoopShape(p)
    {
      forall c :: InGrid(c) ==> KindAt(tiles, c) == if c in p.rooms[..p.i] then Secret else p.g0[c].kind
    }

    ghost predicate WiredDoors(p: WireLoop)
      reads this, tiles
      requires WireLoopShape(p)
    {
      forall k, d :: 0 <= k < p.i && OpensIn(p.g0, p.rooms[k], d) ==> DoorPair(tiles, p.rooms[k], d)
    }

    ghost predicate WiredFrame(p: WireLoop)
      reads this, tiles
      requires WireLoopShape(p)
    {
      forall c :: InGrid(c) && c !in p.rooms[..p.i] && !NextToScanned(p.rooms, p.i, c) ==> At(tiles, c) == p.g0[c]
    }

    /** Every tile is the one WiredCell describes after `p.i` rooms. */
    ghost predicate WiredTiles(p: WireLoop)
      reads this, tiles
      requires WireLoopShape(p)
    {
      forall c :: InGrid(c) ==> At(tiles, c) == WiredCell(p.g0, p.rooms, p.i, c)
    }

    /** Wiring the next room of the loop keeps the loop's description, one room further. */
    twostate lemma WireStep(p: WireLoop)
      requires old(WiredUpTo(p)) && p.i < |p.rooms| && Wired(Wiring(p.rooms[p.i], Secret))
      ensures WiredUpTo(p.(i := p.i + 1))
    {
      var w := Wiring(p.rooms[p.i], Secret);
      WiredKeeps(w);
      WiredNear(w);
      WiredFlags(w);
      WiredOpens(w);
      WireStepKinds(p);
      WireStepDoors(p);
      WireStepFrame(p);
      WireStepBefore(p);
      WireStepNear(p);
      WireStepOtherCells(p);
      WireStepTiles(p);
    }

    /** The tiles WiredCell describes one room further, from the room and its neighbours and from the rest. */
    twostate lemma WireStepTiles(p: WireLoop)
      requires old(WireLoopShape(p)) && p.i < |p.rooms|
      requires var q := p.rooms[p.i];
        forall c :: InGrid(c) && c != q && c != Step(q, Up) && c != Step(q, Right) && c != Step(q, Bottom) && c != Step(q, Left) ==>
          At(tiles, c) == WiredCell(p.g0, p.rooms, p.i + 1, c)
      requires NearWired(p)
      ensures WireLoopShape(p.(i := p.i + 1)) && WiredTiles(p.(i := p.i + 1))
    {
      var p' := p.(i := p.i + 1);
      var q := p.rooms[p.i];
      forall c | InGrid(c)
        ensures At(tiles, c) == WiredCell(p'.g0, p'.rooms, p'.i, c)
      {
        if c == q || c == Step(q, Up) || c == Step(q, Right) || c == Step(q, Bottom) || c == Step(q, Left) {
        } else {
        }
      }
    }

    /** The room wired in the step after `p` and its four neighbours are the tiles WiredCell describes one room further. */
    ghost predicate NearWired(p: WireLoop)
      reads this, tiles
      requires WireLoopShape(p) && p.i < |p.rooms|
    {
      var q := p.rooms[p.i];
      InGrid(Step(q, Up)) && InGrid(Step(q, Right)) && InGrid(Step(q, Bottom)) && InGrid(Step(q, Left)) &&
      At(tiles, q) == WiredCell(p.g0, p.rooms, p.i + 1, q) &&
      At(tiles, Step(q, Up)) == WiredCell(p.g0, p.rooms, p.i + 1, Step(q, Up)) &&
      At(tiles, Step(q, Right)) == WiredCell(p.g0, p.rooms, p.i + 1, Step(q, Right)) &&
      At(tiles, Step(q, Bottom)) == WiredCell(p.g0, p.rooms, p.i + 1, Step(q, Bottom)) &&
      At(tiles, Step(q, Left)) == WiredCell(p.g0, p.rooms, p.i + 1, Step(q, Left))
    }

    /** The room wired in the step after `p` and its neighbours were the tiles WiredCell describes after `p.i` rooms. */
    twostate predicate NearBefore(p: WireLoop)
      reads this, tiles
      requires old(WireLoopShape(p)) && p.i < |p.rooms|
    {
      var q := p.rooms[p.i];
      InGrid(Step(q, Up)) && InGrid(Step(q, Right)) && InGrid(Step(q, Bottom)) && InGrid(Step(q, Left)) &&
      old(At(tiles, q)) == WiredCell(p.g0, p.rooms, p.i, q) &&
      old(At(tiles, Step(q, Up))) == WiredCell(p.g0, p.rooms, p.i, Step(q, Up)) &&
      old(At(tiles, Step(q, Right))) == WiredCell(p.g0, p.rooms, p.i, Step(q, Right)) &&
      old(At(tiles, Step(q, Bottom))) == WiredCell(p.g0, p.rooms, p.i, Step(q, Bottom)) &&
      old(At(tiles, Step(q, Left))) == WiredCell(p.g0, p.rooms, p.i, Step(q, Left))
    }

    twostate lemma WireStepBefore(p: WireLoop)
      requires old(WireLoopShape(p) && WiredTiles(p)) && p.i < |p.rooms|
      ensures NearBefore(p)
    {
      var q := p.rooms[p.i];
      InteriorNeighbours(q);
      assert old(At(tiles, q)) == WiredCell(p.g0, p.rooms, p.i, q);
      assert old(At(tiles, Step(q, Up))) == WiredCell(p.g0, p.rooms, p.i, Step(q, Up));
      assert old(At(tiles, Step(q, Right))) == WiredCell(p.g0, p.rooms, p.i, Step(q, Right));
      assert old(At(tiles, Step(q, Bottom))) == WiredCell(p.g0, p.rooms, p.i, Step(q, Bottom));
      assert old(At(tiles, Step(q, Left))) == WiredCell(p.g0, p.rooms, p.i, Step(q, Left));
    }

    /** The room wired in this step and its neighbours, one room further. */
    twostate lemma WireStepNear(p: WireLoop)
      requires old(WireLoopShape(p)) && p.i < |p.rooms| && NearBefore(p)
      requires Wired(Wiring(p.rooms[p.i], Secret))
      ensures NearWired(p)
    {
      WireStepRoomCell(p);
      WireStepSides(p);
    }

    twostate lemma WireStepSides(p: WireLoop)
      requires old(WireLoopShape(p)) && p.i < |p.rooms| && NearBefore(p)
      requires Wired(Wiring(p.rooms[p.i], Secret))
      ensures var q := p.rooms[p.i];
        At(tiles, Step(q, Up)) == WiredCell(p.g0, p.rooms, p.i + 1, Step(q, Up)) &&
        At(tiles, Step(q, Right)) == WiredCell(p.g0, p.rooms, p.i + 1, Step(q, Right)) &&
        At(tiles, Step(q, Bottom)) == WiredCell(p.g0, p.rooms, p.i + 1, Step(q, Bottom)) &&
        At(tiles, Step(q, Left)) == WiredCell(p.g0, p.rooms, p.i + 1, Step(q, Left))
    {
      WireStepSideCell(WireSide(p, Up));
      WireStepSideCell(WireSide(p, Right));
      WireStepSideCell(WireSide(p, Bottom));
      WireStepSideCell(WireSide(p, Left));
    }

    /** The room wired in this step of the loop is the tile WiredCell describes one room further. */
    twostate lemma WireStepRoomCell(p: WireLoop)
      requires old(WireLoopShape(p)) && p.i < |p.rooms|
      requires var q := p.rooms[p.i];
        InGrid(Step(q, Up)) && InGrid(Step(q, Right)) && InGrid(Step(q, Bottom)) && InGrid(Step(q, Left)) &&
        old(At(tiles, q)) == WiredCell(p.g0, p.rooms, p.i, q) &&
        old(At(tiles, Step(q, Up))) == WiredCell(p.g0, p.rooms, p.i, Step(q, Up)) &&
        old(At(tiles, Step(q, Right))) == WiredCell(p.g0, p.rooms, p.i, Step(q, Right)) &&
        old(At(tiles, Step(q, Bottom))) == WiredCell(p.g0, p.rooms, p.i, Step(q, Bottom)) &&
        old(At(tiles, Step(q, Left))) == WiredCell(p.g0, p.rooms, p.i, Step(q, Left)) &&
        At(tiles, q) == WiredTile(old(At(tiles, q)), Secret,
          old(IsValidSecretNeighbour(KindAt(tiles, Step(q, Up)))), old(IsValidSecretNeighbour(KindAt(tiles, Step(q, Right)))),
          old(IsValidSecretNeighbour(KindAt(tiles, Step(q, Bottom)))), old(IsValidSecretNeighbour(KindAt(tiles, Step(q, Left)))))
      ensures At(tiles, p.rooms[p.i]) == WiredCell(p.g0, p.rooms, p.i + 1, p.rooms[p.i])
    {
    }

    /** The neighbour in direction `x.e` of the room wired in this step is the tile WiredCell describes one room further. */
    twostate lemma WireStepSideCell(x: WireSide)
      requires old(WireLoopShape(x.p)) && x.p.i < |x.p.rooms|
      requires var c := Step(x.p.rooms[x.p.i], x.e);
        InGrid(c) && old(At(tiles, c)) == WiredCell(x.p.g0, x.p.rooms, x.p.i, c) &&
        At(tiles, c) == if old(IsValidSecretNeighbour(KindAt(tiles, c))) then WithSecretDoor(old(At(tiles, c)), Mirror(x.e)) else old(At(tiles, c))
      ensures At(tiles, Step(x.p.rooms[x.p.i], x.e)) == WiredCell(x.p.g0, x.p.rooms, x.p.i + 1, Step(x.p.rooms[x.p.i], x.e))
    {
      StepBack(x.p.rooms[x.p.i], x.e);
      match x.e
      case Up =>
      case Right =>
      case Bottom =>
      case Left =>
    }

    /** The tiles away from the room wired in this step are the ones WiredCell describes one room further. */
    twostate lemma WireStepOtherCells(p: WireLoop)
      requires old(WireLoopShape(p) && WiredTiles(p)) && p.i < |p.rooms|
      requires var q := p.rooms[p.i];
        forall c :: InGrid(c) && c != q && c != Step(q, Up) && c != Step(q, Right) && c != Step(q, Bottom) && c != Step(q, Left) ==>
          At(tiles, c) == old(At(tiles, c))
      ensures var q := p.rooms[p.i];
        forall c :: InGrid(c) && c != q && c != Step(q, Up) && c != Step(q, Right) && c != Step(q, Bottom) && c != Step(q, Left) ==>
          At(tiles, c) == WiredCell(p.g0, p.rooms, p.i + 1, c)
    {
      var q := p.rooms[p.i];
      forall c | InGrid(c) && c != q && c != Step(q, Up) && c != Step(q, Right) && c != Step(q, Bottom) && c != Step(q, Left)
        ensures At(tiles, c) == WiredCell(p.g0, p.rooms, p.i + 1, c)
      {
        assert old(At(tiles, c)) == WiredCell(p.g0, p.rooms, p.i, c);
      }
    }

    twostate lemma WireStepKinds(p: WireLoop)
      requires old(WireLoopShape(p) && WiredKinds(p)) && p.i < |p.rooms| && KindSet(Wiring(p.rooms[p.i], Secret))
      ensures WireLoopShape(p.(i := p.i + 1)) && WiredKinds(p.(i := p.i + 1))
    {
      assert p.rooms[..p.i + 1] == p.rooms[..p.i] + [p.rooms[p.i]];
    }

    twostate lemma WireStepDoors(p: WireLoop)
      requires old(WireLoopShape(p) && WiredKinds(p) && WiredDoors(p)) && p.i < |p.rooms|
      requires FlagsKept() && DoorsOpened(Wiring(p.rooms[p.i], Secret))
      ensures WireLoopShape(p.(i := p.i + 1)) && WiredDoors(p.(i := p.i + 1))
    {
      var rooms, i, g0, q := p.rooms, p.i, p.g0, p.rooms[p.i];
      forall d | OpensIn(g0, q, d)
        ensures old(ValidToward(tiles, q, d))
      {
        InteriorNeighbours(q);
        assert old(KindAt(tiles, Step(q, d))) == if Step(q, d) in rooms[..i] then Secret else g0[Step(q, d)].kind;
      }
      forall k, d | 0 <= k < i && OpensIn(g0, rooms[k], d)
        ensures DoorPair(tiles, rooms[k], d)
      {
        InteriorNeighbours(rooms[k]);
        assert old(DoorPair(tiles, rooms[k], d));
      }
    }

    twostate lemma WireStepFrame(p: WireLoop)
      requires old(WireLoopShape(p) && WiredFrame(p)) && p.i < |p.rooms| && OnlyNear(Wiring(p.rooms[p.i], Secret))
      ensures WireLoopShape(p.(i := p.i + 1)) && WiredFrame(p.(i := p.i + 1))
    {
      var rooms, i, g0, q := p.rooms, p.i, p.g0, p.rooms[p.i];
      assert rooms[..i + 1] == rooms[..i] + [q];
      forall c | InGrid(c) && c !in rooms[..i + 1] && !NextToScanned(rooms, i + 1, c)
        ensures At(tiles, c) == g0[c]
      {
        NextToScannedStep(rooms, i + 1, c);
      }
    }

    /** One turn of the wiring loop: wire the next listed room, which moves the loop's description one room further. */
    method WireNext(i: nat, ghost p: WireLoop)
      requires WiredUpTo(p) && p.rooms == secretRooms && p.i == i < |secretRooms|
      modifies tiles
      ensures WiredUpTo(p.(i := p.i + 1))
    {
      label before:
      WireRoom(secretRooms[i], Secret);
      WireStep@before(p);
    }

    /**
     * The wiring loop of map_find_secret_rooms: every listed room becomes ROOM_SECRET, opens a door
     * towards every neighbour that was a valid secret neighbour before the loop (the neighbour gets
     * the secret door back), and only the listed rooms and their neighbours change.
     */
    method WireSecretRooms()
      requires WellFormed(tiles) && forall k :: 0 <= k < |secretRooms| ==> Interior(secretRooms[k])
      modifies tiles
      ensures forall q :: InGrid(q) ==> KindAt(tiles, q) == if q in secretRooms then Secret else old(KindAt(tiles, q))
      ensures forall k, d :: 0 <= k < |secretRooms| && old(ValidToward(tiles, secretRooms[k], d)) ==>
        DoorPair(tiles, secretRooms[k], d)
      ensures forall q :: InGrid(q) && q !in secretRooms && !NextToScanned(secretRooms, |secretRooms|, q) ==>
        At(tiles, q) == old(At(tiles, q))
      ensures WiredGrid(old(Snapshot(tiles)), Snapshot(tiles), secretRooms)
    {
      ghost var g0 := Snapshot(tiles);
      ghost var p := WireLoop(secretRooms, 0, g0);
      for i := 0 to |secretRooms|
        invariant p == WireLoop(secretRooms, i, g0) && WiredUpTo(p)
      {
        WireNext(i, p);
        p := p.(i := p.i + 1);
      }
      WiredLoopDone(p);
      forall k, d | 0 <= k < |secretRooms| && old(ValidToward(tiles, secretRooms[k], d))
        ensures OpensIn(g0, secretRooms[k], d)
      {
        InteriorNeighbours(secretRooms[k]);
      }
    }

    /** What the loop's description says once every listed room is wired. */
    lemma WiredLoopDone(p: WireLoop)
      requires WiredUpTo(p) && p.i == |p.rooms|
      ensures forall q :: InGrid(q) ==> KindAt(tiles, q) == if q in p.rooms then Secret else p.g0[q].kind
      ensures forall k, d :: 0 <= k < |p.rooms| && OpensIn(p.g0, p.rooms[k], d) ==> DoorPair(tiles, p.rooms[k], d)
      ensures forall q :: InGrid(q) && q !in p.rooms && !NextToScanned(p.rooms, |p.rooms|, q) ==> At(tiles, q) == p.g0[q]
      ensures WiredGrid(p.g0, Snapshot(tiles), p.rooms)
    {
      assert p.rooms[..p.i] == p.rooms;
      WiredGridAfter(p.g0, Snapshot(tiles), p.rooms);
    }

    /**
     * map_find_secret_rooms: the four selection passes, then the wiring of every listed room; the
     * phase succeeds when max_secrets rooms were listed.
     */
    method FindSecretRooms() returns (ok: bool)
      requires WellFormed(tiles) && PositionsInterior()
      requires forall k :: 0 <= k < |secretRooms| ==> Interior(secretRooms[k])
      modifies this`secretRooms, tiles
      ensures secretRooms == old(SecretPasses(tiles, secretRooms, secretPositions, maxSecrets, 0))
      ensures forall k :: 0 <= k < |secretRooms| ==> Interior(secretRooms[k])
      ensures forall q :: q in secretRooms ==> q in old(secretRooms) || q in secretPositions
      ensures forall q :: InGrid(q) ==> KindAt(tiles, q) == if q in secretRooms then Secret else old(KindAt(tiles, q))
      ensures var rooms := secretRooms;
        forall k, d :: 0 <= k < |rooms| && old(ValidToward(tiles, rooms[k], d)) ==> DoorPair(tiles, rooms[k], d)
      ensures forall q :: InGrid(q) && q !in secretRooms && !NextToScanned(secretRooms, |secretRooms|, q) ==>
        At(tiles, q) == old(At(tiles, q))
      ensures old(NoDup(secretRooms) && |secretRooms| <= maxSecrets) ==> NoDup(secretRooms) && |secretRooms| <= maxSecrets
      ensures WiredGrid(old(Snapshot(tiles)), Snapshot(tiles), secretRooms)
      ensures ok <==> |secretRooms| >= maxSecrets
    {
      SelectSecretRooms();
      RankPassesWithin(old(secretRooms), secretPositions, PassRanks(tiles, secretPositions), maxSecrets, 0);
      if NoDup(old(secretRooms)) && |old(secretRooms)| <= maxSecrets {
        SecretPassesSelect(tiles, old(secretRooms), secretPositions, maxSecrets, 0);
      }
      forall k | 0 <= k < |secretRooms|
        ensures Interior(secretRooms[k])
      {
        var q := secretRooms[k];
        if q in old(secretRooms) {
          var j :| 0 <= j < |old(secretRooms)| && old(secretRooms)[j] == q;
        } else {
          var j :| 0 <= j < |secretPositions| && secretPositions[j] == q;
        }
      }
      WireSecretRooms();
      ok := |secretRooms| >= maxSecrets;
    }

    // ---------------------------------------------------------------- super secret room

    /**
     * The scan of map_find_super_secret_room: list the secret positions of chance 1 that border
     * at most one room, all ROOM_NORMAL.
     */
    method ScanSuperPositions()
      requires WellFormed(tiles) && PositionsInterior()
      modifies this`superPositions
      ensures superPositions == SuperScan(tiles, old(superPositions), secretPositions)
    {
      var k := 0;
      while k < |secretPositions|
        invariant 0 <= k <= |secretPositions|
        invariant superPositions == SuperScan(tiles, old(superPositions), secretPositions[..k])
      {
        var q := secretPositions[k];
        assert secretPositions[..k + 1][..k] == secretPositions[..k];
        if At(tiles, q).secretChance != 1 {
        } else if CountBorderingRooms(tiles, q) > 1 {
        } else {
          var normal := IsValidSuperSecretNeighbour(tiles, q);
          if normal {
            superPositions := AddTileToList(superPositions, q);
          }
        }
        k := k + 1;
      }
      assert secretPositions[..k] == secretPositions;
    }

    /** The scan, with what it tells about the positions it lists: earlier ones or interior candidates. */
    method ScanListed()
      requires WellFormed(tiles) && PositionsInterior()
      requires forall k :: 0 <= k < |superPositions| ==> Interior(superPositions[k])
      modifies this`superPositions
      ensures superPositions == SuperScan(tiles, old(superPositions), secretPositions)
      ensures forall q :: q in superPositions ==> q in old(superPositions) || q in secretPositions
      ensures forall k :: 0 <= k < |superPositions| ==> Interior(superPositions[k])
    {
      ScanSuperPositions();
      SuperScanMembers(tiles, old(superPositions), secretPositions);
      forall k | 0 <= k < |superPositions|
        ensures Interior(superPositions[k])
      {
        var tile := superPositions[k];
        if tile in old(superPositions) {
          var j :| 0 <= j < |old(superPositions)| && old(superPositions)[j] == tile;
        }
      }
    }

    /** The end of map_find_super_secret_room: a random listed position is wired as ROOM_SUPER_SECRET. */
    method WirePicked()
      requires WellFormed(tiles) && |superPositions| > 0
      requires forall k :: 0 <= k < |superPositions| ==> Interior(superPositions[k])
      modifies tiles
      ensures exists k :: 0 <= k < |superPositions| && Wired(Wiring(superPositions[k], SuperSecret))
      ensures exists k :: 0 <= k < |superPositions| && KindSet(Wiring(superPositions[k], SuperSecret))
    {
      var index :| 0 <= index < |superPositions|;
      WireRoom(superPositions[index], SuperSecret);
      WiredKeeps(Wiring(superPositions[index], SuperSecret));
    }

    /**
     * map_find_super_secret_room: the scan, then fail when no position was listed, otherwise wire
     * a random one of them as ROOM_SUPER_SECRET. super_secret_room_tile is left as it was.
     */
    method FindSuperSecretRoom() returns (ok: bool)
      requires WellFormed(tiles) && PositionsInterior()
      requires forall k :: 0 <= k < |superPositions| ==> Interior(superPositions[k])
      modifies this`superPositions, tiles
      ensures superPositions == old(SuperScan(tiles, superPositions, secretPositions))
      ensures ok <==> |superPositions| > 0
      ensures !ok ==> forall q :: InGrid(q) ==> At(tiles, q) == old(At(tiles, q))
      ensures forall q :: q in superPositions ==> q in old(superPositions) || q in secretPositions
      ensures ok ==> exists k :: 0 <= k < |superPositions| && Wired(Wiring(superPositions[k], SuperSecret))
      ensures ok ==> exists k :: 0 <= k < |superPositions| && KindSet(Wiring(superPositions[k], SuperSecret))
    {
      ScanListed();
      if |superPositions| <= 0 {
        return false;
      }
      WirePicked();
      ok := true;
    }
 
    // ---------------------------------------------------------------- map_generate

    /**
     * The start of map_generate: draw max_rooms and max_secrets, reset the grid, counters and lists,
     * and place the start room.
     */
    method Restart()
      requires WellFormed(tiles)
      modifies this, tiles
      ensures Grown() && roomsQueue == [Centre] && KindAt(tiles, Centre) == Start
      ensures 4 + 2 * LevelId <= maxRooms <= 6 + 2 * LevelId && 1 <= maxSecrets <= 2
      ensures endRooms == [] && itemRooms == [] && secretRooms == [] && secretPositions == [] && superPositions == []
      ensures startRoom == Some(Centre) && bossRoom == None && shopRoom == None && superSecretRoom == None
    {
      var roomsDraw :| 0 <= roomsDraw < 3;
      maxRooms := MaxRooms(roomsDraw);
      var secretsDraw :| 0 <= secretsDraw < 2;
      maxSecrets := MaxSecrets(secretsDraw);
      ResetAll();
      ClearListsAll();
      PlaceStart();
    }

    /**
     * The growth part of map_generate: restart, then grow the queue. The attempt goes on when
     * created_rooms reached max_rooms.
     */
    method GrowDungeon() returns (ok: bool)
      requires WellFormed(tiles)
      modifies this, tiles
      ensures Grown() && roomsQueue[0] == Centre && KindAt(tiles, Centre) == Start
      ensures 4 + 2 * LevelId <= maxRooms <= 6 + 2 * LevelId && 1 <= maxSecrets <= 2
      ensures endRooms == [] && itemRooms == [] && secretRooms == [] && secretPositions == [] && superPositions == []
      ensures startRoom == Some(Centre) && bossRoom == None && shopRoom == None && superSecretRoom == None
      ensures ok <==> createdRooms == maxRooms
    {
      Restart();
      GrowRooms();
      assert GrownTile(At(tiles, roomsQueue[0]), roomsQueue[0], 0);
      ok := createdRooms == maxRooms;
    }

    /** The end rooms once map_find_end_rooms succeeded: at least three queued rooms, each listed once, none of them the start room. */
    ghost predicate EndsFound()
      reads this`roomsQueue, this`endRooms, tiles
    {
      WellFormed(tiles) && |endRooms| >= 3 && NoDup(endRooms) &&
      forall q :: q in endRooms ==> q in roomsQueue && InGrid(q) && q != Centre
    }

    /** The boss room is the first end room farthest from the start, and has type BOSS. */
    ghost predicate BossPlaced()
      reads this`roomsQueue, this`endRooms, this`bossRoom, tiles
    {
      EndsFound() && IsFirstFarthest(endRooms, Centre, FarthestIndex(endRooms, Centre)) &&
      bossRoom == Some(endRooms[FarthestIndex(endRooms, Centre)]) && KindAt(tiles, bossRoom.value) == Boss
    }

    /** The shop is an end room other than the boss room, and has type SHOP. */
    ghost predicate ShopPlaced()
      reads this`roomsQueue, this`endRooms, this`bossRoom, this`shopRoom, tiles
    {
      BossPlaced() && shopRoom.Some? && shopRoom.value in endRooms && shopRoom != bossRoom &&
      KindAt(tiles, shopRoom.value) == Shop
    }

    /**
     * The special rooms once map_find_item_rooms succeeded: the end, boss and shop rooms as above,
     * and the item rooms are exactly the other end rooms, listed once each, of type ITEM, so there
     * are two fewer of them than end rooms.
     */
    ghost predicate SpecialRooms()
      reads this`roomsQueue, this`endRooms, this`itemRooms, this`bossRoom, this`shopRoom, tiles
    {
      ShopPlaced() && NoDup(itemRooms) && |itemRooms| == |endRooms| - 2 &&
      (forall q :: q in itemRooms <==> q in endRooms && Some(q) != bossRoom && Some(q) != shopRoom) &&
      (forall q :: q in itemRooms ==> KindAt(tiles, q) == Item)
    }

    /**
     * The end, boss, shop and item phases of map_generate, stopping at the first that fails. The
     * end rooms are the queued ROOM_NORMAL rooms with at most one door and at most one bordering
     * room, and only too few of them fails: there is always an end room away from the start to be
     * the boss room and another one to be the shop. Only end rooms change type, so the grid stays
     * settled.
     */
    method PlaceSpecialRooms() returns (ok: bool)
      requires Settled() && KindAt(tiles, Centre) == Start
      requires endRooms == [] && itemRooms == [] && bossRoom == None && shopRoom == None
      modifies this`endRooms, this`bossRoom, this`shopRoom, this`itemRooms, tiles
      ensures Settled()
      ensures forall k :: 0 <= k < |roomsQueue| ==> (roomsQueue[k] in endRooms <==> old(IsEndRoom(tiles, roomsQueue[k])))
      ensures ok <==> |endRooms| >= 3
      ensures ok ==> SpecialRooms()
    {
      ok := PlaceEnds();
      if !ok {
        return;
      }
      PlaceBossShopItems();
    }

    /** map_find_boss_room, map_find_shop_room and map_find_item_rooms once enough end rooms were found. */
    method PlaceBossShopItems()
      requires Settled() && EndsFound() && itemRooms == [] && bossRoom == None && shopRoom == None
      modifies this`bossRoom, this`shopRoom, this`itemRooms, tiles
      ensures Settled() && SpecialRooms()
    {
      PlaceBoss();
      PlaceShop();
      PlaceItems();
    }

    /** map_find_end_rooms on a settled grid: the start room is not ROOM_NORMAL, so it is never an end room. */
    method PlaceEnds() returns (ok: bool)
      requires Settled() && KindAt(tiles, Centre) == Start && endRooms == []
      modifies this`endRooms
      ensures forall k :: 0 <= k < |roomsQueue| ==> (roomsQueue[k] in endRooms <==> IsEndRoom(tiles, roomsQueue[k]))
      ensures ok <==> |endRooms| >= 3
      ensures ok ==> EndsFound()
    {
      SettledInterior();
      ok := FindEndRooms();
      EndRoomsMembers(tiles, [], roomsQueue);
      if !ok {
        return;
      }
      forall q | q in endRooms
        ensures q in roomsQueue && InGrid(q) && q != Centre
      {
        var j :| 0 <= j < |roomsQueue| && roomsQueue[j] == q && IsEndRoom(tiles, q);
      }
    }

    /** map_find_boss_room once enough end rooms were found: it always finds one. */
    method PlaceBoss()
      requires Settled() && EndsFound() && bossRoom == None
      modifies this`bossRoom, tiles
      ensures Settled() && BossPlaced()
    {
      assert forall k :: 0 <= k < |endRooms| ==> endRooms[k] in endRooms;
      label ends:
      var found := FindBossRoom();
      FarthestIndexIsFirstFarthest(endRooms, Centre);
      SettledKept@ends();
    }

    /** map_find_shop_room once the boss room is placed: two end rooms differ, so one is not the boss. */
    method PlaceShop()
      requires Settled() && BossPlaced() && shopRoom == None
      modifies this`shopRoom, tiles
      ensures Settled() && ShopPlaced()
    {
      assert forall k :: 0 <= k < |endRooms| ==> endRooms[k] in endRooms;
      if Some(endRooms[0]) == bossRoom {
        assert Some(endRooms[1]) != bossRoom;
      }
      label boss:
      var found := FindShopRoom();
      SettledKept@boss();
    }

    /** map_find_item_rooms once the boss and shop rooms are placed: it always succeeds. */
    method PlaceItems()
      requires Settled() && ShopPlaced() && itemRooms == []
      modifies this`itemRooms, tiles
      ensures Settled() && SpecialRooms()
    {
      assert forall k :: 0 <= k < |endRooms| ==> endRooms[k] in endRooms;
      label shop:
      var found := FindItemRooms();
      SettledKept@shop();
      ItemRoomsMembers([], endRooms, bossRoom, shopRoom);
      ItemRoomsCount(endRooms, bossRoom, shopRoom);
    }

    /** The secret rooms once map_find_super_secret_room succeeded. */
    ghost predicate SecretsPlaced()
      reads this`roomsQueue, this`secretRooms, this`superPositions, this`maxSecrets, tiles
    {
      WellFormed(tiles) && |secretRooms| == maxSecrets && NoDup(secretRooms) &&
      (forall q :: q in secretRooms ==>
        InGrid(q) && q !in roomsQueue && (KindAt(tiles, q) == Secret || KindAt(tiles, q) == SuperSecret)) &&
      exists k :: 0 <= k < |superPositions| && InGrid(superPositions[k]) && superPositions[k] !in roomsQueue &&
        KindAt(tiles, superPositions[k]) == SuperSecret
    }

    /**
     * The secret phases of map_generate: map_calculate_secret_pos_chance, then
     * map_find_secret_rooms and map_find_super_secret_room, stopping at the first that fails.
     * None of them changes the type of a queued room.
     */
    method PlaceSecrets() returns (ok: bool)
      requires Settled() && 1 <= maxSecrets
      requires secretRooms == [] && secretPositions == [] && superPositions == []
      modifies this`secretPositions, this`secretRooms, this`superPositions, tiles
      ensures secretPositions == SecretCandidates([], roomsQueue, |roomsQueue|)
      ensures forall q :: q in roomsQueue ==> InGrid(q) && KindAt(tiles, q) == old(KindAt(tiles, q))
      ensures !ok <==> |secretRooms| < maxSecrets || |superPositions| == 0
      ensures ok ==> SecretsPlaced()
    {
      PrepareSecrets();
      ok := FindSecrets();
    }

    /** The secret positions lie inside the border, are listed once each and are not rooms. */
    ghost predicate PositionsReady()
      reads this`roomsQueue, this`secretPositions, tiles
    {
      WellFormed(tiles) && NoDup(secretPositions) &&
      forall k :: 0 <= k < |secretPositions| ==> Interior(secretPositions[k]) && secretPositions[k] !in roomsQueue
    }

    /** map_calculate_secret_pos_chance on a settled grid, which leaves the queued rooms alone. */
    method PrepareSecrets()
      requires Settled() && secretPositions == []
      modifies this`secretPositions, tiles
      ensures secretPositions == SecretCandidates([], roomsQueue, |roomsQueue|)
      ensures PositionsReady()
      ensures forall q :: q in roomsQueue ==> InGrid(q) && At(tiles, q) == old(At(tiles, q))
    {
      SettledInterior();
      CalculateSecretPosChance();
      SecretCandidatesMembers([], roomsQueue, |roomsQueue|);
      forall k | 0 <= k < |secretPositions|
        ensures Interior(secretPositions[k]) && secretPositions[k] !in roomsQueue
      {
        CandidatesNearRooms(roomsQueue, secretPositions[k], 7);
        NearCentre(secretPositions[k]);
      }
    }

    /** map_find_secret_rooms, then map_find_super_secret_room once the first succeeded. */
    method FindSecrets() returns (ok: bool)
      requires PositionsReady() && 1 <= maxSecrets && secretRooms == [] && superPositions == []
      requires forall q :: q in roomsQueue ==> InGrid(q)
      modifies this`secretRooms, this`superPositions, tiles
      ensures forall q :: q in roomsQueue ==> KindAt(tiles, q) == old(KindAt(tiles, q))
      ensures |secretRooms| < maxSecrets ==> superPositions == []
      ensures !ok <==> |secretRooms| < maxSecrets || |superPositions| == 0
      ensures ok ==> SecretsPlaced()
    {
      ok := PlaceSecretRooms();
      if !ok {
        return;
      }
      ok := PlaceSuperSecretRoom();
    }

    /** The secret rooms once map_find_secret_rooms succeeded. */
    ghost predicate SecretRoomsPlaced()
      reads this`roomsQueue, this`secretRooms, this`maxSecrets, tiles
    {
      WellFormed(tiles) && |secretRooms| == maxSecrets && NoDup(secretRooms) &&
      forall q :: q in secretRooms ==> InGrid(q) && q !in roomsQueue && KindAt(tiles, q) == Secret
    }

    /** map_find_secret_rooms: the secret rooms are secret positions, so no queued room changes type. */
    method PlaceSecretRooms() returns (ok: bool)
      requires PositionsReady() && 1 <= maxSecrets && secretRooms == []
      requires forall q :: q in roomsQueue ==> InGrid(q)
      modifies this`secretRooms, tiles
      ensures PositionsReady()
      ensures forall q :: q in roomsQueue ==> KindAt(tiles, q) == old(KindAt(tiles, q))
      ensures NoDup(secretRooms) && |secretRooms| <= maxSecrets
      ensures ok <==> |secretRooms| == maxSecrets
      ensures ok ==> SecretRoomsPlaced()
    {
      ok := FindSecretRooms();
      ListedOffQueue(secretRooms);
    }

    /** Rooms listed from the secret positions are not queued rooms. */
    lemma ListedOffQueue(rooms: seq<Pos>)
      requires PositionsReady() && forall q :: q in rooms ==> q in secretPositions
      ensures forall q :: q in rooms ==> q !in roomsQueue
    {
      forall q | q in rooms
        ensures q !in roomsQueue
      {
        var k :| 0 <= k < |secretPositions| && secretPositions[k] == q;
      }
    }

    /** map_find_super_secret_room: the super secret room is a secret position, so no queued room changes type. */
    method PlaceSuperSecretRoom() returns (ok: bool)
      requires PositionsReady() && SecretRoomsPlaced() && superPositions == []
      requires forall q :: q in roomsQueue ==> InGrid(q)
      modifies this`superPositions, tiles
      ensures forall q :: q in roomsQueue ==> KindAt(tiles, q) == old(KindAt(tiles, q))
      ensures ok <==> |superPositions| > 0
      ensures ok ==> SecretsPlaced()
    {
      ok := FindSuperSecretRoom();
      if !ok {
        return;
      }
      ghost var k :| 0 <= k < |superPositions| && KindSet(Wiring(superPositions[k], SuperSecret));
      assert superPositions[k] in superPositions;
      ghost var j :| 0 <= j < |secretPositions| && secretPositions[j] == superPositions[k];
      assert superPositions[k] !in roomsQueue && InGrid(superPositions[k]);
    }

    /**
     * The dungeon map_generate leaves behind: max_rooms rooms grown from the centre, the special
     * rooms and max_secrets secret rooms with a super secret room.
     */
    ghost predicate Generated()
      reads this, tiles
    {
      WellFormed(tiles) && |roomsQueue| == createdRooms == maxRooms && 4 + 2 * LevelId <= maxRooms <= 6 + 2 * LevelId &&
      1 <= maxSecrets <= 2 && startRoom == Some(Centre) && roomsQueue[0] == Centre && NoDup(roomsQueue) &&
      (forall k :: 0 <= k < |roomsQueue| ==> Dist(roomsQueue[k]) <= k) &&
      SpecialRooms() && SecretsPlaced()
    }

    /**
     * One run of map_generate up to the point where it either finishes or calls itself again;
     * `ok` is false exactly where it would start over.
     */
    method GenerateOnce() returns (ok: bool)
      requires WellFormed(tiles)
      modifies this, tiles
      ensures !ok <==> createdRooms != maxRooms || |endRooms| < 3 || |secretRooms| < maxSecrets || |superPositions| == 0
      ensures ok ==> Generated()
    {
      ok := GrowDungeon();
      if !ok {
        return;
      }
      GrownSettled();
      ok := Furnish();
    }

    /**
     * map_generate with its restarts: every rejected attempt calls map_generate again, which starts
     * from scratch. The recursion is bounded here by `fuel` attempts; `ok` is false when all of them
     * were rejected, and otherwise the last attempt finished the dungeon.
     */
    method Generate(fuel: nat) returns (ok: bool)
      requires WellFormed(tiles)
      modifies this, tiles
      ensures ok ==> Generated()
    {
      ok := false;
      var attempts := 0;
      while !ok && attempts < fuel
        invariant WellFormed(tiles)
        invariant ok ==> Generated()
      {
        ok := GenerateOnce();
        attempts := attempts + 1;
      }
    }

    /** The phases of map_generate after growth: the special rooms, then the secret rooms. */
    method Furnish() returns (ok: bool)
      requires Settled() && KindAt(tiles, Centre) == Start && 1 <= maxSecrets
      requires endRooms == [] && itemRooms == [] && bossRoom == None && shopRoom == None
      requires secretRooms == [] && secretPositions == [] && superPositions == []
      modifies this`endRooms, this`bossRoom, this`shopRoom, this`itemRooms
      modifies this`secretPositions, this`secretRooms, this`superPositions, tiles
      ensures !ok <==> |endRooms| < 3 || |secretRooms| < maxSecrets || |superPositions| == 0
      ensures ok ==> SpecialRooms() && SecretsPlaced()
    {
      ok := PlaceSpecialRooms();
      if !ok {
        return;
      }
      label special:
      ok := PlaceSecrets();
      if !ok {
        return;
      }
      SpecialRoomsKept@special();
    }

    /** Kind changes off the queue, and doors added anywhere, keep the special rooms in place. */
    twostate lemma SpecialRoomsKept()
      requires old(SpecialRooms()) && WellFormed(tiles)
      requires roomsQueue == old(roomsQueue) && endRooms == old(endRooms) && itemRooms == old(itemRooms)
      requires bossRoom == old(bossRoom) && shopRoom == old(shopRoom)
      requires forall q :: q in roomsQueue ==> InGrid(q) && KindAt(tiles, q) == old(KindAt(tiles, q))
      ensures SpecialRooms()
    {
    }
  }
}
